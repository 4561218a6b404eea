/** The 64-bit clock that `rtp64_time` of raop_rtp.c makes of 32-bit RTP time stamps. */
module RtpClocks {
  import opened ModArith
  import opened NtpTime

  function Low32(n: int): (r: nat)
    ensures r < 0x1_0000_0000
  {
    n % 0x1_0000_0000
  }

  lemma Low32Multiple(n: int) returns (k: int)
    ensures Low32(n) == n + k * 0x1_0000_0000
  {
    k := -(n / 0x1_0000_0000);
  }

  lemma Low32Shift(a: int, b: int, k: int)
    requires a == b + k * 0x1_0000_0000
    ensures Low32(a) == Low32(b)
  {
    CongruentByMultiple(a, b, 0x1_0000_0000, k);
  }

  lemma Low32InReach(n: int)
    requires -0x1_0000_0000 <= n < 0x1_0000_0000
    ensures Low32(n) == if n < 0 then n + 0x1_0000_0000 else n
  {
  }

  /** A running clock after one more time stamp: by the shorter of the two ways round. */
  function Advance(time: nat, rtp32: nat): (r: nat)
    requires time < 0x1_0000_0000_0000_0000 && rtp32 < 0x1_0000_0000
    ensures r < 0x1_0000_0000_0000_0000
  {
    var diff1 := Low32(rtp32 - Low32(time));
    var diff2 := Low32(Low32(time) - rtp32);
    if diff1 <= diff2 then U64(time + diff1) else U64(time - diff2)
  }

  class RtpClock {
    var started: bool
    var rtpTime: nat
    var rtpStartTime: nat

    ghost predicate Valid()
      reads this
    {
      rtpTime < 0x1_0000_0000_0000_0000
    }

    constructor ()
      ensures Valid() && !started
    {
      started, rtpTime, rtpStartTime := false, 0, 0;
    }

    /** The low half of the clock is the time stamp, always; that is the assertion the source has
        commented out. */
    method Rtp64Time(rtp32: nat) returns (time: nat)
      requires Valid() && rtp32 < 0x1_0000_0000
      modifies this
      ensures Valid() && started && time == rtpTime && Low32(time) == rtp32
      ensures time == if old(started) then Advance(old(rtpTime), rtp32) else 0x1_0000_0000 + rtp32
      ensures rtpStartTime == if old(started) then old(rtpStartTime) else time
    {
      hide Low32, U64;
      Low32InReach(rtp32);
      if started {
        var diff1 := Low32(rtp32 - Low32(rtpTime));
        var diff2 := Low32(Low32(rtpTime) - rtp32);
        if diff1 <= diff2 {
          rtpTime := U64(rtpTime + diff1);
        } else {
          rtpTime := U64(rtpTime - diff2);
        }
        LowHalf(old(rtpTime), rtp32);
      } else {
        rtpTime := 0x1_0000_0000 + rtp32;
        Low32Shift(rtpTime, rtp32, 1);
        rtpStartTime := rtpTime;
        started := true;
      }
      return rtpTime;
    }
  }

  lemma LowHalf(time: nat, rtp32: nat)
    requires time < 0x1_0000_0000_0000_0000 && rtp32 < 0x1_0000_0000
    ensures Low32(Advance(time, rtp32)) == rtp32
  {
    hide Low32, U64;
    var k := Low32Multiple(time);
    var k1 := Low32Multiple(rtp32 - Low32(time));
    var k2 := Low32Multiple(Low32(time) - rtp32);
    var sum := if Low32(rtp32 - Low32(time)) <= Low32(Low32(time) - rtp32) then time + Low32(rtp32 - Low32(time))
               else time - Low32(Low32(time) - rtp32);
    var r, j := U64Multiple(sum);
    Low32InReach(rtp32);
    Low32Shift(r, rtp32, j * 0x1_0000_0000 - k + if sum >= time then k1 else -k2);
  }

  /** A step of the true, unbounded time by at most half the 32-bit range is followed exactly. */
  lemma StepIsFollowed(time: nat, t: int, t': int, era: int)
    requires time == U64(t + era * 0x1_0000_0000) && -0x8000_0000 < t' - t <= 0x8000_0000
    ensures Advance(time, Low32(t')) == U64(t' + era * 0x1_0000_0000)
  {
    hide Low32, U64;
    var time', j := U64Multiple(t + era * 0x1_0000_0000);
    var k := Low32Multiple(time);
    var k' := Low32Multiple(t');
    var rtp32 := Low32(t');
    Low32Shift(rtp32 - Low32(time), t' - t, k' - k - era - j * 0x1_0000_0000);
    Low32Shift(Low32(time) - rtp32, t - t', k + era + j * 0x1_0000_0000 - k');
    Low32InReach(t' - t);
    Low32InReach(t - t');
    U64Shift(time + (t' - t), t' + era * 0x1_0000_0000, j);
  }

  /** The clock after a whole run of time stamps. */
  function RunClock(stamps: seq<int>): nat
    requires |stamps| > 0
    ensures RunClock(stamps) < 0x1_0000_0000_0000_0000
  {
    if |stamps| == 1 then 0x1_0000_0000 + Low32(stamps[0])
    else Advance(RunClock(stamps[..|stamps| - 1]), Low32(stamps[|stamps| - 1]))
  }

  /** Through any number of wraps and reorderings, the clock is the true time, put into the second
      32-bit era of the clock at the start. */
  lemma {:induction false} ClockIsTrueTime(stamps: seq<int>)
    requires |stamps| > 0
    requires forall i :: 0 < i < |stamps| ==> -0x8000_0000 < stamps[i] - stamps[i - 1] <= 0x8000_0000
    ensures RunClock(stamps) == U64(stamps[|stamps| - 1] + (1 - stamps[0] / 0x1_0000_0000) * 0x1_0000_0000)
    decreases |stamps|
  {
    hide Low32, U64, Advance;
    if |stamps| == 1 {
      FirstStamp(stamps[0]);
    } else {
      var n := |stamps| - 1;
      ClockIsTrueTime(stamps[..n]);
      StepIsFollowed(RunClock(stamps[..n]), stamps[n - 1], stamps[n], 1 - stamps[0] / 0x1_0000_0000);
    }
  }

  lemma FirstStamp(t: int)
    ensures 0x1_0000_0000 + Low32(t) == U64(t + (1 - t / 0x1_0000_0000) * 0x1_0000_0000)
  {
    hide U64;
    U64InReach(0x1_0000_0000 + Low32(t));
  }

  /** In particular, from a first time stamp below 2^32, the clock is always 2^32 ahead, as long as
      it stays within 64 bits. */
  lemma ClockIsAhead(stamps: seq<int>)
    requires |stamps| > 0 && 0 <= stamps[0] < 0x1_0000_0000
    requires forall i :: 0 < i < |stamps| ==> -0x8000_0000 < stamps[i] - stamps[i - 1] <= 0x8000_0000
    requires -0x1_0000_0000 <= stamps[|stamps| - 1] < 0xffff_ffff_0000_0000
    ensures RunClock(stamps) == stamps[|stamps| - 1] + 0x1_0000_0000
  {
    hide U64, RunClock;
    ClockIsTrueTime(stamps);
    U64InReach(stamps[|stamps| - 1] + 0x1_0000_0000);
  }

  /** The step that the clock takes for a step of `d`: the same modulo 2^32, by the shorter way. */
  lemma NearestStep(d: int) returns (near: int, k: int)
    ensures near == d - k * 0x1_0000_0000 && -0x8000_0000 < near <= 0x8000_0000
    ensures k == 0 <==> -0x8000_0000 < d <= 0x8000_0000
    ensures -0x4000_0000_0000_0000 < d < 0x4000_0000_0000_0000 ==> -0x4000_0001 < k < 0x4000_0001
  {
    k := (d + 0x7fff_ffff) / 0x1_0000_0000;
    near := d - k * 0x1_0000_0000;
  }

  /** A multiple of 2^32 below 2^64 shows in 64 bits unless it is zero. */
  lemma U64Apart(n: int, k: int)
    requires -0x1_0000_0000 < k < 0x1_0000_0000
    ensures U64(n) == U64(n + k * 0x1_0000_0000) <==> k == 0
  {
    var x, i := U64Multiple(n);
    var y, j := U64Multiple(n + k * 0x1_0000_0000);
  }

  /** The bound on the steps is exact: any other step below 2^62 is misread, and the clock then
      stands a multiple of 2^32 away from the true time. */
  lemma StepIsFollowedExactly(time: nat, t: int, t': int, era: int)
    requires time == U64(t + era * 0x1_0000_0000)
    requires -0x4000_0000_0000_0000 < t' - t < 0x4000_0000_0000_0000
    ensures Advance(time, Low32(t')) == U64(t' + era * 0x1_0000_0000) <==> -0x8000_0000 < t' - t <= 0x8000_0000
  {
    hide U64, Low32, Advance;
    var near, k := NearestStep(t' - t);
    Low32Shift(t', t + near, k);
    StepIsFollowed(time, t, t + near, era);
    U64Apart(t + near + era * 0x1_0000_0000, k);
  }

  /** After every time stamp the clock shows the true time, at the distance it started with. */
  ghost predicate ShowsTrueTime(stamps: seq<int>)
    requires |stamps| > 0
  {
    forall n :: 0 < n <= |stamps| ==>
      RunClock(stamps[..n]) == U64(stamps[n - 1] + (1 - stamps[0] / 0x1_0000_0000) * 0x1_0000_0000)
  }

  /** A run shows the true time throughout exactly if every step is at most half the 32-bit range
      forward, or less than half of it back. */
  lemma ClockIsTrueExactly(stamps: seq<int>)
    requires |stamps| > 0
    requires forall i :: 0 < i < |stamps| ==> -0x4000_0000_0000_0000 < stamps[i] - stamps[i - 1] < 0x4000_0000_0000_0000
    ensures ShowsTrueTime(stamps) <==> forall i :: 0 < i < |stamps| ==> -0x8000_0000 < stamps[i] - stamps[i - 1] <= 0x8000_0000
  {
    hide U64, Low32, Advance, RunClock;
    if ShowsTrueTime(stamps) {
      forall i | 0 < i < |stamps| ensures -0x8000_0000 < stamps[i] - stamps[i - 1] <= 0x8000_0000 {
        LastStamp(stamps[..i + 1]);
        assert stamps[..i + 1][..i] == stamps[..i];
        StepIsFollowedExactly(RunClock(stamps[..i]), stamps[i - 1], stamps[i], 1 - stamps[0] / 0x1_0000_0000);
      }
    } else {
      var n :| 0 < n <= |stamps| &&
        RunClock(stamps[..n]) != U64(stamps[n - 1] + (1 - stamps[0] / 0x1_0000_0000) * 0x1_0000_0000);
      if forall i :: 0 < i < |stamps| ==> -0x8000_0000 < stamps[i] - stamps[i - 1] <= 0x8000_0000 {
        ClockIsTrueTime(stamps[..n]);
        assert false;
      }
    }
  }

  lemma LastStamp(stamps: seq<int>)
    requires |stamps| > 1
    ensures RunClock(stamps) == Advance(RunClock(stamps[..|stamps| - 1]), Low32(stamps[|stamps| - 1]))
  {
  }

  /** The first step the bound leaves out: half the range back is taken for half the range forward. */
  lemma HalfBackIsMisread(time: nat, t: int, era: int)
    requires time == U64(t + era * 0x1_0000_0000)
    ensures Advance(time, Low32(t - 0x8000_0000)) == U64(t + 0x8000_0000 + era * 0x1_0000_0000)
  {
    hide U64, Low32, Advance;
    Low32Shift(t - 0x8000_0000, t + 0x8000_0000, -1);
    StepIsFollowed(time, t, t + 0x8000_0000, era);
  }
}
