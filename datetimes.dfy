/** The calendar collaborator GeneralizedTime relies on: `DateTime` with its
    validating constructor, and the two-digit decimal helpers (datetime.rs is
    not part of this model; only what generalized_time.rs calls is here). */
module DateTimes {
  import opened Types
  import opened Encoders

  const MIN_YEAR: nat := 1970
  const MAX_YEAR: nat := 9999

  /** ASCII '0' and 'Z'. */
  const DIGIT_ZERO: byte := 0x30
  const ZULU: byte := 0x5A

  /** The six calendar fields of a timestamp, UTC. */
  datatype Fields = Fields(year: nat, month: nat, day: nat, hour: nat, minutes: nat, seconds: nat)

  function IsLeapYear(year: nat): bool {
    (year % 4 == 0 && year % 100 != 0) || year % 400 == 0
  }

  function DaysInMonth(year: nat, month: nat): nat
    requires 1 <= month <= 12
  {
    if month == 2 then (if IsLeapYear(year) then 29 else 28)
    else if month == 4 || month == 6 || month == 9 || month == 11 then 30
    else 31
  }

  /** What `DateTime::new` accepts. */
  predicate Valid(f: Fields) {
    && MIN_YEAR <= f.year <= MAX_YEAR
    && 1 <= f.month <= 12
    && 1 <= f.day <= DaysInMonth(f.year, f.month)
    && f.hour <= 23
    && f.minutes <= 59
    && f.seconds <= 59
  }

  /** `DateTime`: fields that its constructor accepted. */
  type DateTime = f: Fields | Valid(f) witness Fields(1970, 1, 1, 0, 0, 0)

  /** `DateTime::new`: succeeds exactly for valid fields, and keeps them. */
  function New(year: nat, month: nat, day: nat, hour: nat, minutes: nat, seconds: nat): (r: Result<DateTime>)
    ensures r.Ok? <==> Valid(Fields(year, month, day, hour, minutes, seconds))
    ensures r.Ok? ==> r.value == Fields(year, month, day, hour, minutes, seconds)
    ensures r.Err? ==> r.error == DateTimeInvalid
  {
    var f := Fields(year, month, day, hour, minutes, seconds);
    if Valid(f) then Ok(f) else Err(DateTimeInvalid)
  }

  /** The round trip through Unix time that decoding performs,
      `DateTime::from_unix_duration(dt.unix_duration())`. The calendar
      arithmetic behind it is not modelled; it is taken to be the identity on
      valid timestamps, which is the one assumption the round-trip lemmas
      below rest on. */
  function ThroughUnixTime(dt: DateTime): Result<DateTime>
  {
    Ok(dt)
  }

  predicate IsDigit(b: byte) {
    DIGIT_ZERO <= b <= DIGIT_ZERO + 9
  }

  /** The two ASCII digits `encode_decimal` writes for `v < 100`. */
  function DecimalOctets(v: nat): (r: seq<byte>)
    requires v < 100
    ensures |r| == 2 && IsDigit(r[0]) && IsDigit(r[1])
  {
    [DIGIT_ZERO + (v / 10) as byte, DIGIT_ZERO + (v % 10) as byte]
  }

  /** `decode_decimal`: two ASCII digits as a number below 100, or the tag's
      value error. The digits it accepts are exactly those `encode_decimal`
      writes for the number it returns. */
  function DecodeDecimal(tag: Tag, hi: byte, lo: byte): (r: Result<nat>)
    ensures r.Ok? <==> IsDigit(hi) && IsDigit(lo)
    ensures r.Ok? ==> r.value < 100 && DecimalOctets(r.value) == [hi, lo]
    ensures r.Err? ==> r.error == Value(tag)
  {
    if IsDigit(hi) && IsDigit(lo) then Ok((hi - DIGIT_ZERO) as nat * 10 + (lo - DIGIT_ZERO) as nat)
    else Err(Value(tag))
  }

  /** Decoding what `encode_decimal` writes gives the number back. */
  lemma DecimalRoundTrip(tag: Tag, v: nat)
    requires v < 100
    ensures DecodeDecimal(tag, DecimalOctets(v)[0], DecimalOctets(v)[1]) == Ok(v)
  {
  }

  /** Two-digit fields compare like the numbers they hold. */
  lemma DecimalOrder(x: nat, y: nat)
    requires x < 100 && y < 100
    ensures LexCmp(DecimalOctets(x), DecimalOctets(y)) == Cmp(x, y)
  {
    var dx, dy := DecimalOctets(x), DecimalOctets(y);
    LexCmpAppend([dx[0]], [dx[1]], [dy[0]], [dy[1]]);
    assert dx == [dx[0]] + [dx[1]] && dy == [dy[0]] + [dy[1]];
  }

  /** `encode_decimal`: the two digits of `value` at the cursor; the tag's
      value error, writing nothing, when `value` has three digits. */
  method EncodeDecimal(enc: Encoder, tag: Tag, value: byte) returns (r: Outcome)
    requires enc.Valid()
    modifies enc, enc.buf
    ensures enc.Valid()
    ensures value >= 100 ==> r == Fail(Value(tag)) && enc.pos == old(enc.pos) && enc.buf[..] == old(enc.buf[..])
    ensures value < 100 ==> (r.Pass? <==> old(enc.Remaining()) >= 2)
    ensures value < 100 && r.Pass? ==> enc.pos == old(enc.pos) + 2
    ensures value < 100 && r.Pass? ==>
      enc.buf[..] == Spliced(old(enc.buf[..]), enc.start + old(enc.pos), DecimalOctets(value as nat))
    ensures value < 100 && r.Fail? ==> r.error == Overflow
  {
    var hi := value / 10;
    if hi >= 10 {
      return Fail(Value(tag));
    }
    ghost var before := enc.buf[..];
    r := enc.Byte(hi + DIGIT_ZERO);
    if r.Fail? {
      return;
    }
    r := enc.Byte(value % 10 + DIGIT_ZERO);
    if r.Pass? {
      SplicedTwice(before, enc.start + old(enc.pos), [hi + DIGIT_ZERO], [value % 10 + DIGIT_ZERO]);
      assert [hi + DIGIT_ZERO] + [value % 10 + DIGIT_ZERO] == DecimalOctets(value as nat);
    }
  }
}
