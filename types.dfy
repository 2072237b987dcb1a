/** Shared vocabulary of the DER codec: octets, orderings, tags, errors and
    the failure-compatible result types every fallible operation returns. */
module Types {

  /** An octet (`u8`). */
  newtype byte = b: int | 0 <= b < 0x100

  /** `core::cmp::Ordering`. */
  datatype Ordering = Less | Equal | Greater {
    /** The ordering seen from the other side of the comparison. */
    function Reverse(): Ordering {
      match this
      case Less => Greater
      case Equal => Equal
      case Greater => Less
    }
  }

  /** Numeric comparison (`Ord for u8`, `Ord for u32`, ...). */
  function Cmp(a: int, b: int): Ordering {
    if a < b then Less else if a == b then Equal else Greater
  }

  /** Lexicographic comparison of octet strings, as `Ord for [u8]`: the first
      differing octet decides, and a proper prefix sorts first. */
  function LexCmp(s: seq<byte>, t: seq<byte>): Ordering
    decreases |s|
  {
    if |s| == 0 then (if |t| == 0 then Equal else Less)
    else if |t| == 0 then Greater
    else if s[0] != t[0] then Cmp(s[0] as int, t[0] as int)
    else LexCmp(s[1..], t[1..])
  }

  /** Comparing two concatenations whose first parts have the same length:
      the first parts decide unless they are equal. */
  lemma {:induction false} LexCmpAppend(a: seq<byte>, c: seq<byte>, b: seq<byte>, d: seq<byte>)
    requires |a| == |b|
    ensures LexCmp(a + c, b + d) == if LexCmp(a, b) != Equal then LexCmp(a, b) else LexCmp(c, d)
    decreases |a|
  {
    if |a| == 0 {
      assert a + c == c && b + d == d;
    } else {
      assert (a + c)[0] == a[0] && (b + d)[0] == b[0];
      assert (a + c)[1..] == a[1..] + c && (b + d)[1..] == b[1..] + d;
      LexCmpAppend(a[1..], c, b[1..], d);
    }
  }

  /** `LexCmp` answers Equal exactly for equal strings. */
  lemma {:induction false} LexCmpEqual(s: seq<byte>, t: seq<byte>)
    ensures LexCmp(s, t) == Equal <==> s == t
    decreases |s|
  {
    if |s| > 0 && |t| > 0 && s[0] == t[0] {
      LexCmpEqual(s[1..], t[1..]);
      if s[1..] == t[1..] {
        assert s == [s[0]] + s[1..] && t == [t[0]] + t[1..];
      }
    }
  }

  /** `LexCmp` is antisymmetric. */
  lemma {:induction false} LexCmpReverse(s: seq<byte>, t: seq<byte>)
    ensures LexCmp(t, s) == LexCmp(s, t).Reverse()
    decreases |s|
  {
    if |s| > 0 && |t| > 0 && s[0] == t[0] {
      LexCmpReverse(s[1..], t[1..]);
    }
  }

  /** ASN.1 tag, as a single identifier octet. Only the low-tag-number form
      (section 8.1.2 of ITU-T X.690) is representable: the high-tag-number
      marker, all five tag-number bits set, is not a `Tag`. */
  type Tag = b: byte | b % 0x20 != 0x1F witness 0x18

  /** Universal tag 24: GeneralizedTime. */
  const GENERALIZED_TIME: Tag := 0x18

  /** `der::ErrorKind`, restricted to the kinds this core produces. */
  datatype ErrorKind =
    | Overflow                                    // a length exceeds what `Length` holds, or a buffer is full
    | Overlength                                  // a length field that is not DER-canonical
    | Length(tag: Tag)                            // `Overlength` attributed to the header's tag
    | Value(tag: Tag)                             // `tag.value_error()`: malformed content for that tag
    | Incomplete(expectedLen: nat, actualLen: nat) // input ended early, or output size mismatch
    | UnknownTag(octet: byte)                     // an identifier octet that is not a supported tag
    | TagUnexpected(expected: Tag, actual: Tag)   // a `FixedTag` type found another tag
    | DateTimeInvalid                             // `DateTime::new` rejected the fields

  /** `der::Result<T>`. */
  datatype Result<+T> = Ok(value: T) | Err(error: ErrorKind) {
    predicate IsFailure() { Err? }
    function PropagateFailure<U>(): Result<U> requires Err? { Err(error) }
    function Extract(): T requires Ok? { value }
  }

  /** `der::Result<()>`. */
  datatype Outcome = Pass | Fail(error: ErrorKind) {
    predicate IsFailure() { Fail? }
    function PropagateFailure(): Outcome requires Fail? { this }
  }

  datatype Option<+T> = None | Some(value: T)

  /** Pairs a decoder's result with the cursor position it left behind, so that
      a method over a `Decoder` can be compared with a pure decoding function
      that returns the value and the new position. */
  function Advance<T>(r: Result<T>, pos: nat): Result<(T, nat)> {
    match r
    case Ok(v) => Ok((v, pos))
    case Err(e) => Err(e)
  }

  /** `n` zero octets. */
  function Zeros(n: nat): (r: seq<byte>)
    ensures |r| == n && forall i :: 0 <= i < n ==> r[i] == 0
  {
    seq(n, _ => 0)
  }
}
