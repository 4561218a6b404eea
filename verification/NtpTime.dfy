/** The fixed-point time stamps of NTP (byteutils.c, raop_ntp.c), in the source's 64-bit unsigned
    arithmetic. */
module NtpTime {
  import opened Bytes
  import opened ModArith
  import opened Seqs

  const SECONDS_FROM_1900_TO_1970: nat := 2208988800

  /** Reduction to 64 bits. */
  function U64(n: int): (r: nat)
    ensures r < 0x1_0000_0000_0000_0000
  {
    n % 0x1_0000_0000_0000_0000
  }

  lemma U64InReach(n: int)
    requires -0x1_0000_0000_0000_0000 <= n < 0x1_0000_0000_0000_0000
    ensures U64(n) == if n < 0 then n + 0x1_0000_0000_0000_0000 else n
  {
  }

  /** A 64-bit pattern read as a signed number. */
  function AsInt64(u: nat): int
    requires u < 0x1_0000_0000_0000_0000
  {
    if u < 0x8000_0000_0000_0000 then u else u - 0x1_0000_0000_0000_0000
  }

  /** Seconds and a 32-bit fraction as nanoseconds; the seconds may have wrapped below zero. */
  function Nanoseconds(seconds: nat, fraction: nat): nat {
    U64(U64(seconds * 1_000_000_000) + fraction * 1_000_000_000 / 0x1_0000_0000)
  }

  /** `byteutils_get_ntp_timestamp` on the eight bytes of a field. */
  function GetNtpTimestamp(field: seq<byte>): nat
    requires |field| == 8
  {
    Nanoseconds(U64(FromBE(field[..4]) - SECONDS_FROM_1900_TO_1970), FromBE(field[4..]))
  }

  /** `raop_ntp_timestamp_to_nano_seconds`, and `raop_remote_timestamp_to_nano_seconds`, which
      decides by the time protocol whether to account for the epoch. */
  function TimestampToNanoSeconds(timestamp: nat, accountForEpoch: bool): nat
    requires timestamp < 0x1_0000_0000_0000_0000
  {
    Nanoseconds(U64(timestamp / 0x1_0000_0000 - (if accountForEpoch then SECONDS_FROM_1900_TO_1970 else 0)),
                timestamp % 0x1_0000_0000)
  }

  /** The field that is written for a time. */
  function NtpField(ns: nat): (f: seq<byte>)
    ensures |f| == 8
  {
    ToBE((ns / 1_000_000_000 + SECONDS_FROM_1900_TO_1970) % 0x1_0000_0000, 4)
    + ToBE(ns % 1_000_000_000 * 0x1_0000_0000 / 1_000_000_000 % 0x1_0000_0000, 4)
  }

  /** The field is the time since 1900 in units of 2^-32 seconds, cut down to 64 bits (section 6 of
      RFC 5905). */
  lemma FieldIsFixedPoint(ns: nat)
    ensures FromBE(NtpField(ns)) == U64(ns * 0x1_0000_0000 / 1_000_000_000 + 2208988800 * 0x1_0000_0000)
  {
    var s, f := ns / 1_000_000_000, ns % 1_000_000_000 * 0x1_0000_0000 / 1_000_000_000;
    FieldHalves(ns);
    ScaledQuotient(ns);
    hide FromBE, NtpField, U64;
    var seconds := s + SECONDS_FROM_1900_TO_1970;
    var w, k := seconds % 0x1_0000_0000, seconds / 0x1_0000_0000;
    U64Shift(w * 0x1_0000_0000 + f, seconds * 0x1_0000_0000 + f, -k);
    U64InReach(w * 0x1_0000_0000 + f);
  }

  lemma FieldHalves(ns: nat)
    ensures var f := ns % 1_000_000_000 * 0x1_0000_0000 / 1_000_000_000;
      && f < 0x1_0000_0000
      && FromBE(NtpField(ns)) == (ns / 1_000_000_000 + SECONDS_FROM_1900_TO_1970) % 0x1_0000_0000 * 0x1_0000_0000 + f
  {
    var w, f := (ns / 1_000_000_000 + SECONDS_FROM_1900_TO_1970) % 0x1_0000_0000, ns % 1_000_000_000 * 0x1_0000_0000 / 1_000_000_000;
    FractionRoundTrip(ns % 1_000_000_000);
    hide FromBE, ToBE;
    FieldOf(ns, w, f);
    JoinHalves(w, f);
  }

  lemma FieldOf(ns: nat, w: nat, f: nat)
    requires w == (ns / 1_000_000_000 + SECONDS_FROM_1900_TO_1970) % 0x1_0000_0000
    requires f == ns % 1_000_000_000 * 0x1_0000_0000 / 1_000_000_000 < 0x1_0000_0000
    ensures NtpField(ns) == ToBE(w, 4) + ToBE(f, 4)
  {
    hide ToBE;
  }

  lemma JoinHalves(w: nat, f: nat)
    requires w < 0x1_0000_0000 && f < 0x1_0000_0000
    ensures FromBE(ToBE(w, 4) + ToBE(f, 4)) == w * 0x1_0000_0000 + f
  {
    Pow256Values();
    FromToBE(w, 4);
    FromToBE(f, 4);
    FromBEHalves(ToBE(w, 4), ToBE(f, 4));
    hide FromBE, ToBE, Pow256;
  }

  lemma ScaledQuotient(ns: nat)
    ensures ns * 0x1_0000_0000 / 1_000_000_000
         == ns / 1_000_000_000 * 0x1_0000_0000 + ns % 1_000_000_000 * 0x1_0000_0000 / 1_000_000_000
  {
    var s, n := ns / 1_000_000_000, ns % 1_000_000_000;
    assert ns * 0x1_0000_0000 == 1_000_000_000 * (s * 0x1_0000_0000) + n * 0x1_0000_0000;
  }

  /** Without the epoch, a time stamp is decoded as its fixed-point value in nanoseconds. */
  lemma DecodedIsFixedPoint(timestamp: nat)
    requires timestamp < 0x1_0000_0000_0000_0000
    ensures TimestampToNanoSeconds(timestamp, false) == timestamp * 1_000_000_000 / 0x1_0000_0000
  {
    var s, f := timestamp / 0x1_0000_0000, timestamp % 0x1_0000_0000;
    assert timestamp * 1_000_000_000 / 0x1_0000_0000 == s * 1_000_000_000 + f * 1_000_000_000 / 0x1_0000_0000;
    U64InReach(s);
    U64InReach(s * 1_000_000_000);
    U64InReach(s * 1_000_000_000 + f * 1_000_000_000 / 0x1_0000_0000);
  }

  /** `byteutils_put_ntp_timestamp`. */
  method PutNtpTimestamp(b: array<byte>, offset: nat, ns: nat)
    requires offset + 8 <= b.Length && ns < 0x1_0000_0000_0000_0000
    modifies b
    ensures b[..] == Splice(old(b[..]), offset, NtpField(ns))
  {
    var seconds := ns / 1_000_000_000;
    var nanoseconds := ns % 1_000_000_000;
    seconds := seconds + SECONDS_FROM_1900_TO_1970;
    var fraction := nanoseconds * 0x1_0000_0000 / 1_000_000_000;
    ghost var was := b[..];
    SpliceTwice(was, offset, ToBE(seconds % 0x1_0000_0000, 4), ToBE(fraction % 0x1_0000_0000, 4));
    PutInt(b, offset, seconds % 0x1_0000_0000);
    PutInt(b, offset + 4, fraction % 0x1_0000_0000);
  }

  /** `byteutils_put_int` of a number turned to network order. */
  method PutInt(b: array<byte>, offset: nat, value: nat)
    requires offset + 4 <= b.Length
    modifies b
    ensures b[..] == Splice(old(b[..]), offset, ToBE(value, 4))
  {
    var bytes := ToBE(value, 4);
    b[offset], b[offset + 1], b[offset + 2], b[offset + 3] := bytes[0], bytes[1], bytes[2], bytes[3];
    assert bytes == [bytes[0], bytes[1], bytes[2], bytes[3]];
  }

  /** Five to the ninth and two to the twenty-third have no common factor. */
  lemma FractionIsExact(n: nat)
    requires n * 0x1_0000_0000 % 1_000_000_000 == 0
    ensures n % 1953125 == 0
  {
    var q := n * 0x1_0000_0000 / 1_000_000_000;
    assert n * 8388608 == q * 1953125;
    // 1 == 1953125 * 3054701 - 8388608 * 711228
    var t := n * 3054701 - q * 711228;
    assert n == t * 1953125;
  }

  /** Down to a binary fraction of a second and back loses a nanosecond, unless it is exact. */
  lemma FractionRoundTrip(n: nat)
    requires n < 1_000_000_000
    ensures var f := n * 0x1_0000_0000 / 1_000_000_000;
      f < 0x1_0000_0000 && f * 1_000_000_000 / 0x1_0000_0000 == if n % 1953125 == 0 then n else n - 1
  {
    var f, r := n * 0x1_0000_0000 / 1_000_000_000, n * 0x1_0000_0000 % 1_000_000_000;
    assert f * 1_000_000_000 == n * 0x1_0000_0000 - r;
    if n % 1953125 == 0 {
      var m := n / 1953125;
      assert n * 0x1_0000_0000 == m * 8388608 * 1_000_000_000;
      assert r == 0;
    } else if r == 0 {
      FractionIsExact(n);
    }
  }

  /** What the reader makes of what the writer wrote. */
  function RoundTrip(ns: nat): nat {
    GetNtpTimestamp(NtpField(ns))
  }

  /** The last second that fits into a field of 32 bits, which count from 1900. */
  const LAST: nat := (0x1_0000_0000 - 2208988800) * 1_000_000_000

  lemma RoundTripByParts(ns: nat)
    requires ns < 0x1_0000_0000_0000_0000
    ensures var s, n := ns / 1_000_000_000, ns % 1_000_000_000;
      var era := (s + SECONDS_FROM_1900_TO_1970) / 0x1_0000_0000;
      && era <= 4 && (era == 0 <==> ns < LAST)
      && RoundTrip(ns) == U64(ns - era * 0x1_0000_0000 * 1_000_000_000 - (if n % 1953125 == 0 then 0 else 1))
  {
    var s, n := ns / 1_000_000_000, ns % 1_000_000_000;
    var era, written := (s + SECONDS_FROM_1900_TO_1970) / 0x1_0000_0000, (s + SECONDS_FROM_1900_TO_1970) % 0x1_0000_0000;
    FractionRoundTrip(n);
    ReadBack(ns, written, n * 0x1_0000_0000 / 1_000_000_000);
    hide U64, RoundTrip;
    WrappedSum(written - SECONDS_FROM_1900_TO_1970, n * 0x1_0000_0000 / 1_000_000_000 * 1_000_000_000 / 0x1_0000_0000);
  }

  lemma ReadBack(ns: nat, written: nat, f: nat)
    requires written == (ns / 1_000_000_000 + SECONDS_FROM_1900_TO_1970) % 0x1_0000_0000
    requires f == ns % 1_000_000_000 * 0x1_0000_0000 / 1_000_000_000 < 0x1_0000_0000
    ensures RoundTrip(ns) == Nanoseconds(U64(written - SECONDS_FROM_1900_TO_1970), f)
  {
    Pow256Values();
    hide FromBE, ToBE, U64, Nanoseconds, Pow256;
    FromToBE(written, 4);
    FromToBE(f, 4);
    assert NtpField(ns) == ToBE(written, 4) + ToBE(f, 4);
    TwoParts(ToBE(written, 4), ToBE(f, 4));
  }

  /** Wrapping in between does not change a sum of products modulo 64 bits. */
  lemma WrappedSum(seconds: int, back: nat)
    ensures U64(U64(U64(seconds) * 1_000_000_000) + back) == U64(seconds * 1_000_000_000 + back)
  {
    var x, k := U64Multiple(seconds);
    var y, j := U64Multiple(x * 1_000_000_000);
    hide U64;
    U64Shift(y + back, seconds * 1_000_000_000 + back, k * 1_000_000_000 + j);
  }

  lemma U64Multiple(n: int) returns (r: nat, k: int)
    ensures r == U64(n) && r == n + k * 0x1_0000_0000_0000_0000
  {
    r, k := U64(n), -(n / 0x1_0000_0000_0000_0000);
  }

  lemma U64Shift(a: int, b: int, k: int)
    requires a == b + k * 0x1_0000_0000_0000_0000
    ensures U64(a) == U64(b)
  {
    CongruentByMultiple(a, b, 0x1_0000_0000_0000_0000, k);
  }

  /** Up to the end of the NTP era in 2036 the round trip loses a nanosecond exactly if the
      nanoseconds are not a multiple of 1953125, with no overflow on the way. */
  lemma RoundTripInEra(ns: nat)
    requires ns < LAST
    ensures RoundTrip(ns) == if ns % 1_000_000_000 % 1953125 == 0 then ns else ns - 1
  {
    hide U64, RoundTrip;
    RoundTripByParts(ns);
    U64InReach(ns - 1);
    U64InReach(ns);
  }

  /** For all 64-bit times, that is also the only range in which the time comes back at all. */
  lemma RoundTripExactly(ns: nat)
    requires ns < 0x1_0000_0000_0000_0000
    ensures (RoundTrip(ns) == ns || RoundTrip(ns) == ns - 1) <==> ns < LAST
  {
    hide U64, RoundTrip;
    RoundTripByParts(ns);
    var era := (ns / 1_000_000_000 + SECONDS_FROM_1900_TO_1970) / 0x1_0000_0000;
    U64InReach(ns - era * 0x1_0000_0000 * 1_000_000_000);
    U64InReach(ns - era * 0x1_0000_0000 * 1_000_000_000 - 1);
  }

  lemma Halves(n: nat, hi: nat, lo: nat)
    requires n == hi * 0x1_0000_0000 + lo && lo < 0x1_0000_0000
    ensures n / 0x1_0000_0000 == hi && n % 0x1_0000_0000 == lo
  {
  }

  /** The two decoders agree on every field. */
  lemma DecodersAgree(field: seq<byte>)
    requires |field| == 8
    ensures FromBE(field) < 0x1_0000_0000_0000_0000
    ensures TimestampToNanoSeconds(FromBE(field), true) == GetNtpTimestamp(field)
  {
    Pow256Values();
    hide FromBE, Pow256, U64, Nanoseconds;
    var a, b := field[..4], field[4..];
    assert field == a + b;
    FromBEHalves(a, b);
    Halves(FromBE(field), FromBE(a), FromBE(b));
  }
}
