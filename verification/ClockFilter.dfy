/** The clock filter of raop_ntp.c: eight samples of the offset between the client's clock and the
    local one, of which the one with the shortest round trip counts. */
module ClockFilter {
  import opened NtpTime

  /** A C division by two, toward zero. */
  function Half(n: int): int {
    if n >= 0 then n / 2 else -(-n / 2)
  }

  /** Rounded toward zero: the halves of a number and of its negation are negations. */
  lemma HalfIsTruncated(n: int)
    ensures Half(-n) == -Half(n) && (n >= 0 ==> 2 * Half(n) <= n <= 2 * Half(n) + 1)
  {
  }

  datatype Sample = Sample(time: int, offset: int, delay: int)

  /** The sample of one exchange: sent at t0, received at t1 and answered at t2 by the client's
      clock, returned at t3. */
  function SampleOf(t0: int, t1: int, t2: int, t3: int): Sample {
    Sample(t3, Half((t1 - t0) + (t2 - t3)), (t3 - t0) - (t2 - t1))
  }

  const MAX_DISP := 0x10_0000_0000  // 16 << 32

  predicate FitsInt64(n: int) {
    -0x8000_0000_0000_0000 <= n < 0x8000_0000_0000_0000
  }

  /** The range of a remote time, as a 64-bit number read with its sign. */
  predicate IsRemoteTime(t: int) {
    -2208988800 * 1_000_000_000 <= t < 0x1_0000_0000 * 1_000_000_000
  }

  /** With local times below the end of the NTP era none of the differences overflows. */
  lemma NoOverflow(t0: int, t1: int, t2: int, t3: int)
    requires 0 <= t0 < LAST && 0 <= t3 < LAST && IsRemoteTime(t1) && IsRemoteTime(t2)
    ensures FitsInt64(t1 - t0) && FitsInt64(t2 - t3) && FitsInt64((t1 - t0) + (t2 - t3))
    ensures FitsInt64(t3 - t0) && FitsInt64(t2 - t1) && FitsInt64((t3 - t0) - (t2 - t1))
  {
  }

  /** The remote times are of that kind, whatever the client sends, under either time protocol. Under
      NTP, which accounts for the epoch, they end where the local ones do. */
  lemma RemoteTimesInRange(timestamp: nat, accountForEpoch: bool)
    requires timestamp < 0x1_0000_0000_0000_0000
    ensures IsRemoteTime(AsInt64(TimestampToNanoSeconds(timestamp, accountForEpoch)))
    ensures accountForEpoch ==> AsInt64(TimestampToNanoSeconds(timestamp, true)) < LAST
    ensures !accountForEpoch ==> AsInt64(TimestampToNanoSeconds(timestamp, false)) >= 0
  {
    var epoch := if accountForEpoch then SECONDS_FROM_1900_TO_1970 else 0;
    var seconds, fraction := timestamp / 0x1_0000_0000 - epoch, timestamp % 0x1_0000_0000;
    WrappedSum(seconds, fraction * 1_000_000_000 / 0x1_0000_0000);
    hide U64, Nanoseconds;
    U64InReach(seconds * 1_000_000_000 + fraction * 1_000_000_000 / 0x1_0000_0000);
    assert TimestampToNanoSeconds(timestamp, accountForEpoch)
        == U64(seconds * 1_000_000_000 + fraction * 1_000_000_000 / 0x1_0000_0000);
  }

  /** An exchange as it truly happened: sent at a local time, and the time there, at the client,
      and back; and what the client's two time stamps lose in their fields, as `FractionRoundTrip`
      says: a nanosecond at most. */
  datatype Exchange = Exchange(sent: nat, there: nat, held: nat, back: nat, lostIn: nat, lostOut: nat)

  predicate IsExchange(e: Exchange) {
    e.sent < LAST && e.lostIn <= 1 && e.lostOut <= 1
  }

  /** What the receiver makes of an exchange with a client whose clock is `theta` ahead. The time of
      sending has been through the lossy field and back. */
  function Measured(theta: int, e: Exchange): Sample {
    SampleOf(RoundTrip(e.sent), e.sent + e.there + theta - e.lostIn, e.sent + e.there + e.held + theta - e.lostOut,
             e.sent + e.there + e.held + e.back)
  }

  function Abs(n: int): nat {
    if n < 0 then -n else n
  }

  /** The way there takes no less time than the client's first stamp loses. */
  predicate Travels(e: Exchange) {
    e.there > 0 || e.lostIn == 0
  }

  /** The offset of a sample is within half of its delay, and half a nanosecond, of the true one. The
      delay is the true time under way, but for what the fields lose. */
  lemma SampleError(theta: int, e: Exchange)
    requires IsExchange(e)
    ensures 2 * Abs(Measured(theta, e).offset - theta) <= Measured(theta, e).delay + (if Travels(e) then 1 else 3)
    ensures Measured(theta, e).time == e.sent + e.there + e.held + e.back
    ensures e.there + e.back - e.lostIn + e.lostOut <= Measured(theta, e).delay <= e.there + e.back - e.lostIn + e.lostOut + 1
  {
    RoundTripInEra(e.sent);
    hide RoundTrip;
  }

  // ---- The ring ----

  ghost predicate SortedByDelay(s: seq<Sample>) {
    forall i, j :: 0 <= i < j < |s| ==> s[i].delay <= s[j].delay
  }

  /** `qsort`: any order of equal delays is as good as any other. */
  method QSort(s: seq<Sample>) returns (r: seq<Sample>)
    ensures SortedByDelay(r) && multiset(r) == multiset(s)
  {
    r := [];
    var i := 0;
    while i < |s|
      invariant 0 <= i <= |s| && SortedByDelay(r) && multiset(r) == multiset(s[..i])
    {
      assert s[..i + 1] == s[..i] + [s[i]];
      r := Insert(r, s[i]);
      i := i + 1;
    }
    assert s[..i] == s;
  }

  method Insert(s: seq<Sample>, x: Sample) returns (r: seq<Sample>)
    requires SortedByDelay(s)
    ensures SortedByDelay(r) && multiset(r) == multiset(s + [x])
  {
    var k := 0;
    while k < |s| && s[k].delay <= x.delay
      invariant 0 <= k <= |s|
      invariant forall j :: 0 <= j < k ==> s[j].delay <= x.delay
    {
      k := k + 1;
    }
    assert forall j :: k <= j < |s| ==> x.delay <= s[j].delay;
    r := s[..k] + [x] + s[k..];
    InsertIsSorted(s, x, k);
    assert multiset(r) == multiset(s + [x]) by {
      hide SortedByDelay;
      assert s == s[..k] + s[k..];
    }
  }

  lemma InsertIsSorted(s: seq<Sample>, x: Sample, k: nat)
    requires SortedByDelay(s) && k <= |s|
    requires (forall j :: 0 <= j < k ==> s[j].delay <= x.delay) && forall j :: k <= j < |s| ==> x.delay <= s[j].delay
    ensures SortedByDelay(s[..k] + [x] + s[k..])
  {
    var r := s[..k] + [x] + s[k..];
    forall i, j | 0 <= i < j < |r| ensures r[i].delay <= r[j].delay {
      assert r[i] == (if i < k then s[i] else if i == k then x else s[i - 1]);
      assert r[j] == (if j < k then s[j] else if j == k then x else s[j - 1]);
    }
  }

  /** The place of a ring of eight that was written `k` places before `index`. */
  function Place(index: nat, k: nat): (m: nat)
    requires index < 8 && k < 8
    ensures m < 8
  {
    if k <= index then index - k else index + 8 - k
  }

  class RaopNtp {
    const data: array<Sample>
    var dataIndex: nat
    var syncOffset: int
    var syncDelay: int
    const placeholder: Sample       // what the ring holds before the first responses
    ghost var samples: seq<Sample>  // all samples so far, the newest last

    /** The sample `k` places back. */
    ghost function Back(k: nat): Sample
      reads this
    {
      if k < |samples| then samples[|samples| - 1 - k] else placeholder
    }

    ghost predicate Valid()
      reads this, data
    {
      && data.Length == 8 && dataIndex < 8
      && placeholder.offset == 0 && placeholder.delay == MAX_DISP
      && forall k :: 0 <= k < 8 ==> data[Place(dataIndex, k)] == Back(k)
    }

    constructor (now: int)
      ensures Valid() && samples == [] && syncOffset == 0 && fresh(data)
    {
      data := new Sample[8](_ => Sample(now, 0, MAX_DISP));
      dataIndex, syncOffset, syncDelay := 0, 0, 0;
      placeholder, samples := Sample(now, 0, MAX_DISP), [];
    }

    /** Sample `i` is among the last eight. */
    ghost predicate Recent(i: int)
      reads this
    {
      |samples| - 8 <= i < |samples| && 0 <= i
    }

    /** A response arrives: its sample goes into the ring, and the offset is the one with the
        shortest delay among the last eight. */
    method OnResponse(t0: int, t1: int, t2: int, t3: int)
      requires Valid()
      modifies this, data
      ensures Valid() && samples == old(samples) + [SampleOf(t0, t1, t2, t3)]
      ensures (forall i :: Recent(i) ==> samples[i].delay < MAX_DISP) ==>
        exists i :: Recent(i) && syncOffset == samples[i].offset && forall j :: Recent(j) ==> samples[i].delay <= samples[j].delay
      ensures forall i :: Recent(i) ==> samples[i].delay <= syncDelay
      ensures exists k :: 0 <= k < 8 && syncDelay == Back(k).delay && forall j :: 0 <= j < 8 ==> Back(j).delay <= syncDelay
      ensures exists k :: 0 <= k < 8 && syncOffset == Back(k).offset && forall j :: 0 <= j < 8 ==> Back(k).delay <= Back(j).delay
    {
      hide Place, SampleOf, SortedByDelay;
      ghost var next, index: nat := (dataIndex + 1) % 8, dataIndex;
      OnePlaceBack(index, 1);
      forall k: nat | 1 <= k < 8 ensures Place(next, k) == Place(index, k - 1) != next {
        OnePlaceBack(index, k);
      }
      dataIndex := (dataIndex + 1) % 8;
      data[dataIndex] := SampleOf(t0, t1, t2, t3);
      samples := samples + [SampleOf(t0, t1, t2, t3)];
      var dataSorted := QSort(data[..]);
      assert |dataSorted| == 8 by { assert |multiset(dataSorted)| == |multiset(data[..])|; }
      syncOffset := dataSorted[0].offset;
      syncDelay := dataSorted[7].delay;
      ghost var k, last := FirstIsShortest(dataSorted);
    }

    /** One step forward, every sample is one place further back, and the oldest makes room. */
    static lemma OnePlaceBack(index: nat, k: nat)
      requires index < 8 && 1 <= k < 8
      ensures var next := (index + 1) % 8;
        Place(next, 0) == next && Place(next, k) == Place(index, k - 1) != next
    {
    }

    /** The sorted ring's first and last delays bound those of all recent samples. */
    lemma FirstIsShortest(sorted: seq<Sample>) returns (k: nat, last: nat)
      requires Valid() && SortedByDelay(sorted) && multiset(sorted) == multiset(data[..]) && |sorted| == 8
      ensures k < 8 && sorted[0] == Back(k) && last < 8 && sorted[7] == Back(last)
      ensures forall j :: 0 <= j < 8 ==> sorted[0].delay <= Back(j).delay <= sorted[7].delay
      ensures forall i :: Recent(i) ==> samples[i] == Back(|samples| - 1 - i)
    {
      assert sorted[0] in multiset(sorted);
      var m :| 0 <= m < 8 && data[..][m] == sorted[0];
      k := Place(dataIndex, m);
      assert Place(dataIndex, k) == m;
      assert sorted[7] in multiset(sorted);
      var m' :| 0 <= m' < 8 && data[..][m'] == sorted[7];
      last := Place(dataIndex, m');
      assert Place(dataIndex, last) == m';
      forall j | 0 <= j < 8 ensures sorted[0].delay <= Back(j).delay <= sorted[7].delay {
        var x := data[..][Place(dataIndex, j)];
        assert x == Back(j) && x in multiset(data[..]);
        var n :| 0 <= n < 8 && sorted[n] == x;
      }
    }
  }

  /** The promise of the filter, over a whole run with a constant true offset: the offset it has
      chosen is off by at most half of the shortest measured delay among the last eight exchanges, and
      half a nanosecond; so by at most half of the shortest true time under way, but for the fields. */
  method Synchronise(now: int, theta: int, exchanges: seq<Exchange>) returns (ntp: RaopNtp)
    requires |exchanges| > 0
    requires forall i :: 0 <= i < |exchanges| ==> IsExchange(exchanges[i]) && exchanges[i].there + exchanges[i].back + 2 < MAX_DISP
    ensures fresh(ntp) && ntp.Valid() && |ntp.samples| == |exchanges|
    ensures forall i :: 0 <= i < |exchanges| ==> ntp.samples[i] == Measured(theta, exchanges[i])
    ensures forall i :: ntp.Recent(i) ==> 2 * Abs(ntp.syncOffset - theta) <= ntp.samples[i].delay + 3
    ensures (forall i :: ntp.Recent(i) ==> Travels(exchanges[i])) ==>
      forall i :: ntp.Recent(i) ==>
        && 2 * Abs(ntp.syncOffset - theta) <= ntp.samples[i].delay + 1
        && 2 * Abs(ntp.syncOffset - theta) <= exchanges[i].there + exchanges[i].back - exchanges[i].lostIn + exchanges[i].lostOut + 2
  {
    hide SampleOf, RoundTrip;
    ntp := new RaopNtp(now);
    var n := 0;
    while n < |exchanges|
      invariant 0 <= n <= |exchanges| && fresh(ntp) && fresh(ntp.data) && ntp.Valid() && |ntp.samples| == n
      invariant forall i :: 0 <= i < n ==> ntp.samples[i] == Measured(theta, exchanges[i])
      invariant n > 0 ==>
        exists i :: ntp.Recent(i) && ntp.syncOffset == ntp.samples[i].offset
                    && forall j :: ntp.Recent(j) ==> ntp.samples[i].delay <= ntp.samples[j].delay
    {
      var e := exchanges[n];
      ntp.OnResponse(RoundTrip(e.sent), e.sent + e.there + theta - e.lostIn, e.sent + e.there + e.held + theta - e.lostOut,
                     e.sent + e.there + e.held + e.back);
      n := n + 1;
      forall i | 0 <= i < n ensures ntp.samples[i].delay < MAX_DISP {
        SampleError(theta, exchanges[i]);
      }
    }
    hide Measured;
    forall i | ntp.Recent(i)
      ensures 2 * Abs(ntp.samples[i].offset - theta) <= ntp.samples[i].delay + (if Travels(exchanges[i]) then 1 else 3)
      ensures ntp.samples[i].delay <= exchanges[i].there + exchanges[i].back - exchanges[i].lostIn + exchanges[i].lostOut + 1
    {
      SampleError(theta, exchanges[i]);
    }
  }
}
