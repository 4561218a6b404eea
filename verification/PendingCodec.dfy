/** The pending SPS+PPS over whole runs of the mirror thread: when it is held, when only its flag is
    left, and when the thread's assertion on it fails (raop_rtp_mirror.c). */
module PendingCodec {
  import opened Bytes
  import opened MirrorBuffers
  import opened MirrorProtocol
  import opened NalRewrite
  import opened Options

  predicate IsVideo(p: Packet) {
    |p.header| == HEADER && p.header[4] == 0
  }

  /** A codec packet that is not discarded. */
  predicate IsCodec(p: Packet) {
    |p.header| == HEADER && p.header[4] == 1 && |p.payload| > 0
  }

  /** Packet `c` is a codec packet, and neither a frame nor another one came after it. */
  ghost predicate Waits(packets: seq<Packet>, c: int) {
    && 0 <= c < |packets| && IsCodec(packets[c])
    && forall i :: c < i < |packets| ==> !IsVideo(packets[i]) && !IsCodec(packets[i])
  }

  /** Packet `v` is a frame of the time of codec packet `c`, and the only frame or codec packet after
      it. */
  ghost predicate Taken(packets: seq<Packet>, c: int, v: int) {
    && 0 <= c < v < |packets| && IsCodec(packets[c]) && IsVideo(packets[v])
    && RawTimestamp(packets[v].header) == RawTimestamp(packets[c].header)
    && forall i :: c < i < |packets| && i != v ==> !IsVideo(packets[i]) && !IsCodec(packets[i])
  }

  lemma WaitsSnoc(before: seq<Packet>, p: Packet)
    ensures forall c :: Waits(before, c) ==> 0 <= c < |before| && |before[c].header| == HEADER && (before + [p])[c] == before[c]
    ensures (before + [p])[|before|] == p && !(IsVideo(p) && IsCodec(p))
    ensures forall c :: Waits(before + [p], c) <==>
      if c == |before| then IsCodec(p) else Waits(before, c) && !IsVideo(p) && !IsCodec(p)
  {
    var packets := before + [p];
    assert packets[|before|] == p && forall i :: 0 <= i < |before| ==> packets[i] == before[i];
    forall c | c != |before| ensures Waits(packets, c) <==> Waits(before, c) && !IsVideo(p) && !IsCodec(p) {
      if Waits(packets, c) {
        assert forall i :: c < i < |before| ==> !IsVideo(packets[i]) && !IsCodec(packets[i]);
      }
    }
  }

  lemma TakenSnoc(before: seq<Packet>, p: Packet)
    ensures forall c, v :: Taken(before, c, v) ==> 0 <= c < v < |before| && |before[c].header| == HEADER && (before + [p])[c] == before[c]
    ensures forall c, v :: Taken(before + [p], c, v) <==>
      if v == |before| then Waits(before, c) && IsVideo(p) && RawTimestamp(p.header) == RawTimestamp(before[c].header)
      else Taken(before, c, v) && !IsVideo(p) && !IsCodec(p)
  {
    var packets := before + [p];
    assert packets[|before|] == p && forall i :: 0 <= i < |before| ==> packets[i] == before[i];
    forall c, v
      ensures Taken(packets, c, v) <==>
        if v == |before| then Waits(before, c) && IsVideo(p) && RawTimestamp(p.header) == RawTimestamp(before[c].header)
        else Taken(before, c, v) && !IsVideo(p) && !IsCodec(p)
    {
      if Taken(packets, c, v) {
        assert forall i :: c < i < |before| && i != v ==> !IsVideo(packets[i]) && !IsCodec(packets[i]);
      }
    }
  }

  /** What the thread's variables say about the packets handled so far. */
  ghost predicate Tells(st: State, packets: seq<Packet>) {
    && (st.spsPps.Some? <==> exists c :: Waits(packets, c))
    && (st.spsPps.Some? ==> st.prepend)
    && (forall c :: Waits(packets, c) ==>
          && CodecFits(packets[c].payload) && st.spsPps == Some(CodecStream(packets[c].payload))
          && st.codecTime == RawTimestamp(packets[c].header))
    && (forall c, v :: Taken(packets, c, v) ==> st.codecTime == RawTimestamp(packets[c].header))
    && (st.prepend && st.spsPps.None? <==> st.h265 && exists c, v :: Taken(packets, c, v))
  }

  lemma CodecTells(st: State, before: seq<Packet>, p: Packet)
    requires Tells(st, before) && IsCodec(p) && CodecFits(p.payload)
    ensures Tells(HandleCodec(st, RawTimestamp(p.header), p.payload), before + [p])
  {
    WaitsSnoc(before, p);
    TakenSnoc(before, p);
    hide RawTimestamp, CodecFits, CodecStream, Waits, Taken, IsVideo;
    assert Waits(before + [p], |before|);
  }

  lemma OtherTells(st: State, before: seq<Packet>, p: Packet)
    requires Tells(st, before) && !IsVideo(p) && !IsCodec(p)
    ensures Tells(st, before + [p])
  {
    WaitsSnoc(before, p);
    TakenSnoc(before, p);
    hide RawTimestamp, CodecFits, CodecStream, Waits, Taken, IsVideo, IsCodec;
    assert forall c :: Waits(before, c) ==> Waits(before + [p], c);
    assert forall c, v :: Taken(before, c, v) ==> Taken(before + [p], c, v);
  }

  lemma VideoTells(env: Env, st: State, before: seq<Packet>, p: Packet)
    requires Tells(st, before) && IsVideo(p)
    requires DropStale(st, RawTimestamp(p.header)).prepend ==> st.spsPps.Some?
    ensures Tells(HandleVideo(env, st, RawTimestamp(p.header), p.payload).0, before + [p])
  {
    WaitsSnoc(before, p);
    TakenSnoc(before, p);
    hide RawTimestamp, CodecFits, CodecStream, Waits, Taken, VideoScan, FrameOf;
    if st.spsPps.Some? && RawTimestamp(p.header) == st.codecTime {
      var c :| Waits(before, c);
      assert Taken(before + [p], c, |before|);
    }
  }

  /** In every run the variables tell exactly what came: the SPS+PPS held is that of the last codec
      packet, as long as no frame came after it. And it is flagged but gone exactly if one frame has
      taken it and nothing else came since, in a run in which H.265 was seen. */
  lemma {:induction false} EveryRunTells(env: Env, packets: seq<Packet>)
    requires PlayableAll(env, packets)
    ensures Tells(HandleAll(env, packets).state, packets)
    decreases |packets|
  {
    hide Tells, HandleVideo, HandleCodec, RawTimestamp, CodecFits, VideoScan;
    if |packets| == 0 {
      NothingTells();
    } else {
      var before, p := packets[..|packets| - 1], packets[|packets| - 1];
      assert packets == before + [p];
      EveryRunTells(env, before);
      var st := HandleAll(env, before).state;
      if p.header[4] == 0 {
        VideoTells(env, st, before, p);
      } else if IsCodec(p) {
        CodecTells(st, before, p);
      } else {
        OtherTells(st, before, p);
        if p.header[4] == 1 {
          EmptyCodec(st, p);
        }
      }
    }
  }

  lemma NothingTells()
    ensures Tells(INITIAL, [])
  {
  }

  lemma EmptyCodec(st: State, p: Packet)
    requires |p.header| == HEADER && |p.payload| == 0
    ensures HandleCodec(st, RawTimestamp(p.header), p.payload) == st
  {
  }

  /** `assert(sps_pps)` fails on this packet. */
  predicate FailsAssertion(st: State, p: Packet) {
    IsVideo(p) && DropStale(st, RawTimestamp(p.header)).prepend && st.spsPps.None?
  }

  /** The assertion fails exactly on a second frame of a codec packet's time with nothing but packets
      of other kinds in between, when H.265 was seen up to the first one. */
  lemma AssertionFailsExactly(env: Env, packets: seq<Packet>, p: Packet)
    requires PlayableAll(env, packets)
    ensures FailsAssertion(HandleAll(env, packets).state, p) <==>
      && IsVideo(p) && HandleAll(env, packets).state.h265
      && exists c, v :: Taken(packets, c, v) && RawTimestamp(p.header) == RawTimestamp(packets[c].header)
  {
    EveryRunTells(env, packets);
    WaitsSnoc(packets, p);
    TakenSnoc(packets, p);
    hide RawTimestamp, Waits, Taken, PlayableAll, HandleAll, CodecFits, CodecStream;
  }

  const LENGTHS: seq<byte> := seq(11, _ => 0)
  const UNIT: seq<byte> := [0, 0, 0, 12, 0x28, 1, 0, 0, 0, 0, 0, 0, 0, 0, 0, 0]

  /** A run in which it fails: a codec packet, an H.265 frame, and any other frame of that time, here
      one without units that could be played otherwise. */
  lemma FailureHappens(env: Env) returns (packets: seq<Packet>, next: Packet)
    ensures PlayableAll(env, packets) && FailsAssertion(HandleAll(env, packets).state, next)
    ensures var st := HandleAll(env, packets).state;
      !Playable(env, st, next) && Playable(env, st.(prepend := false), next)
  {
    var time := RawTimestamp(PlainHeader(0, 0));
    var codec, frame := Packet(PlainHeader(11, 1), LENGTHS), Packet(PlainHeader(16, 0), XorStream(env.ks, 0, UNIT));
    next := Packet(PlainHeader(0, 0), []);
    var pending, taken := State(0, Some(START_CODE + START_CODE), true, time, false), State(16, None, true, time, true);
    AfterCodec(env, time);
    AfterFrame(env, pending);
    OnlyAssertion(env, taken);
    hide Goes, Playable, PlayableAll, HandleAll, RawTimestamp, PlainHeader;
    NothingPlayed(env);
    HandleNext(env, [], codec, pending, []);
    HandleNext(env, [] + [codec], frame, taken, []);
    packets := [] + [codec] + [frame];
  }

  lemma NothingPlayed(env: Env)
    ensures PlayableAll(env, []) && HandleAll(env, []).state == INITIAL
  {
  }

  lemma AfterCodec(env: Env, time: nat)
    requires time == RawTimestamp(PlainHeader(0, 0))
    ensures Goes(env, INITIAL, Packet(PlainHeader(11, 1), LENGTHS), State(0, Some(START_CODE + START_CODE), true, time, false), [])
  {
    HeaderOf(11, 1);
    EmptyLengths(LENGTHS);
    hide RawTimestamp, PayloadSize, PlainHeader, CodecFits, CodecStream;
  }

  lemma AfterFrame(env: Env, st: State)
    requires st.prepend && st.spsPps.Some? && !st.h265 && st.used == 0 && st.codecTime == RawTimestamp(PlainHeader(0, 0))
    ensures Goes(env, st, Packet(PlainHeader(16, 0), XorStream(env.ks, 0, UNIT)), State(16, None, true, st.codecTime, true), [])
  {
    HeaderOf(16, 0);
    H265Scan(env, st);
    H265Goes(env, st, Packet(PlainHeader(16, 0), XorStream(env.ks, 0, UNIT)));
  }

  lemma H265Goes(env: Env, st: State, p: Packet)
    requires st.prepend && st.spsPps.Some? && st.used == 0 && |p.payload| == 16
    requires |p.header| == HEADER && p.header[4] == 0 && PayloadSize(p.header) == 16 && RawTimestamp(p.header) == st.codecTime
    requires VideoScan(env, st, p.payload).outcome == H265
    ensures Goes(env, st, p, State(16, None, true, st.codecTime, true), [])
  {
    hide RawTimestamp, PayloadSize, VideoScan;
  }

  lemma OnlyAssertion(env: Env, st: State)
    requires st.prepend && st.spsPps.None? && st.used == 16 && st.codecTime == RawTimestamp(PlainHeader(0, 0))
    ensures var next := Packet(PlainHeader(0, 0), []);
      FailsAssertion(st, next) && !Playable(env, st, next) && Playable(env, st.(prepend := false), next)
  {
    HeaderOf(0, 0);
    NoPayloadScan(env, st.(prepend := false));
    hide RawTimestamp, PayloadSize, PlainHeader, VideoScan;
  }

  function PlainHeader(size: byte, kind: byte): (h: seq<byte>)
    ensures |h| == HEADER
  {
    [size, 0, 0, 0, kind] + seq(123, _ => 0)
  }

  lemma HeaderOf(size: byte, kind: byte)
    ensures var h := PlainHeader(size, kind);
      PayloadSize(h) == size && h[4] == kind && RawTimestamp(h) == RawTimestamp(PlainHeader(0, 0))
  {
    var h := PlainHeader(size, kind);
    assert h[..4] == [size, 0, 0, 0];
    assert h[8..16] == PlainHeader(0, 0)[8..16];
    assert FromLE([0]) == 0 && FromLE([0, 0]) == 0 && FromLE([0, 0, 0]) == 0;
    assert [size, 0, 0, 0][1..] == [0, 0, 0];
  }

  lemma EmptyLengths(payload: seq<byte>)
    requires |payload| == 11 && forall i :: 0 <= i < 11 ==> payload[i] == 0
    ensures CodecFits(payload) && CodecStream(payload) == START_CODE + START_CODE
  {
    assert FromBE([0, 0]) == 0;
    assert payload[6..8] == [0, 0] && payload[9..11] == [0, 0];
  }

  lemma H265Scan(env: Env, st: State)
    ensures VideoScan(env, st, XorStream(env.ks, st.used, UNIT)).outcome == H265
  {
    XorStreamTwice(env.ks, st.used, UNIT);
    hide XorStream;
    var mem, n := Prefix(st) + UNIT + Behind(env, st.used), |Prefix(st)|;
    hide Prefix;
    assert mem[n..n + 4] == UNIT[..4] == [0, 0, 0, 12];
    assert mem[n + 4] == UNIT[4] && mem[n + 5] == UNIT[5];
    assert FromBE([0, 0, 0, 12]) == 12 by {
      assert FromBE([0, 0, 0]) == 0;
      assert [0, 0, 0, 12][..3] == [0, 0, 0];
    }
  }

  lemma NoPayloadScan(env: Env, st: State)
    ensures VideoScan(env, st, []).outcome == Complete(|Prefix(st)|)
  {
  }

  // ---- The first byte ----

  /** In every run, the SPS+PPS that a frame takes start with a start code. */
  lemma PrefixIsCodec(env: Env, packets: seq<Packet>, raw: nat)
    requires PlayableAll(env, packets)
    ensures var prefix := Prefix(DropStale(HandleAll(env, packets).state, raw));
      prefix == [] || (|prefix| >= 4 && prefix[..4] == START_CODE)
  {
    EveryRunTells(env, packets);
    var st := HandleAll(env, packets).state;
    if st.spsPps.Some? {
      var c :| Waits(packets, c);
      assert st.spsPps.value[..4] == START_CODE;
    }
  }

  /** In every run, the first byte of what the decoder gets tells a failed rewrite from a good one. */
  lemma FirstByteTells(env: Env, packets: seq<Packet>, raw: nat, payload: seq<byte>)
    requires PlayableAll(env, packets) && |payload| > 0
    ensures var st := HandleAll(env, packets).state;
      var out := HandleVideo(env, st, raw, payload).1;
      |out| > 0 ==> |out[0].data| > 0
                    && (out[0].data[0] == 1 <==> VideoScan(env, DropStale(st, raw), payload).outcome != Complete(|out[0].data|))
  {
    PrefixIsCodec(env, packets, raw);
    hide *;
    var st := HandleAll(env, packets).state;
    if |HandleVideo(env, st, raw, payload).1| > 0 {
      FirstByteOf(env, st, raw, payload);
    }
  }
}
