/** The cursor-based writer every `encode` works through (`der::Encoder`,
    which is not part of this model beyond the two writes used here). */
module Encoders {
  import opened Types

  /** The buffer `s` after `bytes` have been written at offset `at`; every
      other octet is kept. */
  function Spliced(s: seq<byte>, at: nat, bytes: seq<byte>): (r: seq<byte>)
    requires at + |bytes| <= |s|
    ensures |r| == |s|
    ensures forall i :: 0 <= i < |s| ==> r[i] == if at <= i < at + |bytes| then bytes[i - at] else s[i]
  {
    s[..at] + bytes + s[at + |bytes|..]
  }

  /** Two consecutive writes are one write of their concatenation. */
  lemma SplicedTwice(s: seq<byte>, at: nat, x: seq<byte>, y: seq<byte>)
    requires at + |x| + |y| <= |s|
    ensures Spliced(Spliced(s, at, x), at + |x|, y) == Spliced(s, at, x + y)
  {
    var l := Spliced(Spliced(s, at, x), at + |x|, y);
    var r := Spliced(s, at, x + y);
    assert |l| == |r|;
    forall i | 0 <= i < |l| ensures l[i] == r[i] {
      if at <= i < at + |x| {
        assert (x + y)[i - at] == x[i - at];
      } else if at + |x| <= i < at + |x| + |y| {
        assert (x + y)[i - at] == y[i - at - |x|];
      }
    }
  }

  /** An encoder over the slice `buf[start..end]` of a caller-owned buffer;
      `pos` counts the octets written so far from `start`. */
  class Encoder {
    const buf: array<byte>
    const start: nat
    const end: nat
    var pos: nat

    ghost predicate Valid()
      reads this
    {
      start <= end <= buf.Length && pos <= end - start
    }

    /** Octets still free in the slice. */
    function Remaining(): nat
      reads this
      requires Valid()
    {
      end - start - pos
    }

    /** `Encoder::new(&mut buf[start..end])`. */
    constructor (buf: array<byte>, start: nat, end: nat)
      requires start <= end <= buf.Length
      ensures Valid() && this.buf == buf && this.start == start && this.end == end && pos == 0
    {
      this.buf := buf;
      this.start := start;
      this.end := end;
      pos := 0;
    }

    /** `Encoder::byte`: write one octet at the cursor, or fail with
        `Overflow` when the slice is full. */
    method Byte(b: byte) returns (r: Outcome)
      requires Valid()
      modifies this, buf
      ensures Valid()
      ensures r.Pass? <==> old(Remaining()) >= 1
      ensures r.Pass? ==> pos == old(pos) + 1 && buf[..] == Spliced(old(buf[..]), start + old(pos), [b])
      ensures r.Fail? ==> r.error == Overflow && pos == old(pos) && buf[..] == old(buf[..])
    {
      if pos < end - start {
        buf[start + pos] := b;
        pos := pos + 1;
        r := Pass;
      } else {
        r := Fail(Overflow);
      }
    }

    /** `Encoder::bytes`: reserve room for all of `bytes`, failing with
        `Overflow` before writing anything if there is not enough, then copy
        them in at the cursor. */
    method Bytes(bytes: seq<byte>) returns (r: Outcome)
      requires Valid()
      modifies this, buf
      ensures Valid()
      ensures r.Pass? <==> old(Remaining()) >= |bytes|
      ensures r.Pass? ==> pos == old(pos) + |bytes| && buf[..] == Spliced(old(buf[..]), start + old(pos), bytes)
      ensures r.Fail? ==> r.error == Overflow && pos == old(pos) && buf[..] == old(buf[..])
    {
      if |bytes| > end - start - pos {
        return Fail(Overflow);
      }
      var i := 0;
      while i < |bytes|
        invariant 0 <= i <= |bytes|
        invariant pos == old(pos) + i
        invariant forall j :: 0 <= j < buf.Length ==>
          buf[j] == if start + old(pos) <= j < start + pos then bytes[j - start - old(pos)] else old(buf[j])
      {
        buf[start + pos] := bytes[i];
        pos := pos + 1;
        i := i + 1;
      }
      r := Pass;
    }

    /** `Encoder::finish`: the written prefix of the slice. */
    method Finish() returns (written: seq<byte>)
      requires Valid()
      ensures written == buf[start..start + pos]
    {
      written := buf[start..start + pos];
    }
  }
}
