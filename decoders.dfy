/** The cursor-based reader every `decode` works through (`der::Decoder`,
    which is not part of this model beyond the two reads used here). */
module Decoders {
  import opened Types

  /** Reading one octet at `pos`: the octet and the next position, or
      `Incomplete` when the input is exhausted. */
  function ByteAt(input: seq<byte>, pos: nat): (r: Result<(byte, nat)>)
    requires pos <= |input|
    ensures r.Ok? <==> pos < |input|
    ensures r.Ok? ==> r.value == (input[pos], pos + 1)
    ensures r.Err? ==> r.error == Incomplete(pos + 1, |input|)
  {
    if pos < |input| then Ok((input[pos], pos + 1)) else Err(Incomplete(pos + 1, |input|))
  }

  /** Reading `n` octets at `pos` (`Decoder::bytes`, which is also what
      `ByteSlice::decode_value` does with the header's length). */
  function BytesAt(input: seq<byte>, pos: nat, n: nat): (r: Result<(seq<byte>, nat)>)
    requires pos <= |input|
    ensures r.Ok? <==> pos + n <= |input|
    ensures r.Ok? ==> r.value.1 == pos + n && r.value.0 == input[pos..pos + n]
    ensures r.Err? ==> r.error == Incomplete(pos + n, |input|)
  {
    if pos + n <= |input| then Ok((input[pos..pos + n], pos + n)) else Err(Incomplete(pos + n, |input|))
  }

  class Decoder {
    /** The borrowed input slice. */
    const input: seq<byte>
    /** The read cursor. */
    var pos: nat

    ghost predicate Valid()
      reads this
    {
      pos <= |input|
    }

    constructor (input: seq<byte>)
      ensures Valid() && this.input == input && pos == 0
    {
      this.input := input;
      pos := 0;
    }

    /** `Decoder::byte`: one octet, advancing the cursor by one. */
    method Byte() returns (r: Result<byte>)
      requires Valid()
      modifies this
      ensures Valid()
      ensures Advance(r, pos) == ByteAt(input, old(pos))
    {
      if pos < |input| {
        r := Ok(input[pos]);
        pos := pos + 1;
      } else {
        r := Err(Incomplete(pos + 1, |input|));
      }
    }

    /** `Decoder::bytes`: `n` octets, advancing the cursor by `n`. */
    method Bytes(n: nat) returns (r: Result<seq<byte>>)
      requires Valid()
      modifies this
      ensures Valid()
      ensures Advance(r, pos) == BytesAt(input, old(pos), n)
    {
      if pos + n <= |input| {
        r := Ok(input[pos..pos + n]);
        pos := pos + n;
      } else {
        r := Err(Incomplete(pos + n, |input|));
      }
    }
  }
}
