/** What the mirror thread makes of a byte stream, as functions of values: the cut into packets,
    and the effect of each packet on the thread's state and on the video callback. */
module MirrorProtocol {
  import opened Bytes
  import opened Seqs
  import opened MirrorBuffers
  import opened NalRewrite
  import opened Options

  const HEADER := 128

  datatype Packet = Packet(header: seq<byte>, payload: seq<byte>)

  datatype Parsed = Parsed(packets: seq<Packet>, rest: seq<byte>)

  /** `byteutils_get_int(packet, 0)`. */
  function PayloadSize(header: seq<byte>): nat
    requires |header| == HEADER
  {
    FromLE(header[..4])
  }

  /** `byteutils_get_long(packet, 8)`. */
  function RawTimestamp(header: seq<byte>): nat
    requires |header| == HEADER
  {
    FromLE(header[8..16])
  }

  /** A first packet stands complete at the head of `s`. */
  predicate HasPacket(s: seq<byte>) {
    |s| >= HEADER && |s| >= HEADER + PayloadSize(s[..HEADER])
  }

  function PacketLength(s: seq<byte>): (n: nat)
    requires HasPacket(s)
    ensures HEADER <= n <= |s|
  {
    HEADER + PayloadSize(s[..HEADER])
  }

  function FirstPacket(s: seq<byte>): Packet
    requires HasPacket(s)
  {
    Packet(s[..HEADER], s[HEADER..PacketLength(s)])
  }

  /** All complete packets at the head of a stream, and the bytes of the next one. */
  function Parse(s: seq<byte>): (p: Parsed)
    decreases |s|
  {
    if !HasPacket(s) then Parsed([], s)
    else
      var later := Parse(s[PacketLength(s)..]);
      Parsed([FirstPacket(s)] + later.packets, later.rest)
  }

  /** A stream that goes on changes nothing about the packets already complete. */
  lemma {:induction false} ParseAppend(a: seq<byte>, b: seq<byte>)
    ensures Parse(a + b) == Parsed(Parse(a).packets + Parse(Parse(a).rest + b).packets, Parse(Parse(a).rest + b).rest)
    ensures !HasPacket(Parse(a).rest)
    decreases |a|
  {
    hide Parse, PayloadSize;
    ParseOnce(a);
    if HasPacket(a) {
      var n := PacketLength(a);
      assert (a + b)[..HEADER] == a[..HEADER];
      assert (a + b)[HEADER..n] == a[HEADER..n];
      assert (a + b)[n..] == a[n..] + b;
      ParseOnce(a + b);
      ParseAppend(a[n..], b);
      hide HasPacket;
      var later := Parse(Parse(a).rest + b).packets;
      Associate([FirstPacket(a)], Parse(a[n..]).packets, later);
    }
  }

  lemma ParseOnce(s: seq<byte>)
    ensures Parse(s) == if !HasPacket(s) then Parsed([], s)
      else Parsed([FirstPacket(s)] + Parse(s[PacketLength(s)..]).packets, Parse(s[PacketLength(s)..]).rest)
  {
  }

  lemma ParsePrefix(wire: seq<byte>, n: nat)
    requires n <= |wire|
    ensures |Parse(wire[..n]).packets| <= |Parse(wire).packets|
    ensures Parse(wire).packets[..|Parse(wire[..n]).packets|] == Parse(wire[..n]).packets
    ensures wire[..|wire|] == wire
  {
    hide Parse;
    assert wire == wire[..n] + wire[n..];
    ParseAppend(wire[..n], wire[n..]);
  }

  /** A header left over in a part of a stream that parses to its end is that of the next packet. */
  lemma RestHeader(a: seq<byte>, b: seq<byte>)
    requires Parse(a + b).rest == [] && |Parse(a).rest| >= HEADER
    ensures |Parse(a).packets| < |Parse(a + b).packets|
    ensures Parse(a + b).packets[|Parse(a).packets|].header == Parse(a).rest[..HEADER]
  {
    hide Parse, PayloadSize;
    ParseAppend(a, b);
    var rest := Parse(a).rest;
    ParseOnce(rest + b);
    assert rest + b != [];
    assert (rest + b)[..HEADER] == rest[..HEADER];
    hide HasPacket;
  }

  lemma ParseOne(p: Packet)
    requires |p.header| == HEADER && PayloadSize(p.header) == |p.payload|
    ensures Parse(p.header + p.payload) == Parsed([p], [])
  {
    var s := p.header + p.payload;
    assert s[..HEADER] == p.header && s[HEADER..|s|] == p.payload && s[|s|..] == [];
  }

  /** One call of `video_process`: the bytes, the number of NAL units, the client's time stamp. */
  datatype VideoFrame = VideoFrame(data: seq<byte>, nalCount: nat, rawTime: nat)

  /** The thread's variables that outlive a packet, with the position in the keystream. */
  datatype State = State(used: nat, spsPps: Option<seq<byte>>, prepend: bool, codecTime: nat, h265: bool)

  const INITIAL := State(0, None, false, 0, false)

  /** The client's keystream, and what happens to lie behind the output buffer of the video packet
      that starts at a given keystream byte. */
  datatype Env = Env(ks: Keystream, behind: nat -> (byte, byte))

  function Behind(env: Env, used: nat): (s: seq<byte>)
    ensures |s| == 2
  {
    [env.behind(used).0, env.behind(used).1]
  }

  /** A pending SPS+PPS of another time is thrown away. */
  function DropStale(st: State, raw: nat): State {
    if st.prepend && raw != st.codecTime then st.(spsPps := None, prepend := false) else st
  }

  function Prefix(st: State): seq<byte> {
    if st.prepend && st.spsPps.Some? then st.spsPps.value else []
  }

  /** The output buffer of a video packet after decryption and rewriting. */
  function VideoScan(env: Env, st: State, payload: seq<byte>): (r: Scan)
    ensures |r.mem| == |Prefix(st)| + |payload| + 2
  {
    var mem := Prefix(st) + XorStream(env.ks, st.used, payload) + Behind(env, st.used);
    ScanFrom(mem, |Prefix(st)|, |payload|, |Prefix(st)|, 0, st.h265)
  }

  /** The payload bytes as handed over: an invalid rewrite is marked in the first byte. */
  function Marked(data: seq<byte>, valid: bool): seq<byte>
    requires valid || |data| > 0
  {
    if valid then data else data[0 := 1]
  }

  /** What the callback gets: the marked bytes, and two units more when SPS+PPS are prepended. */
  function FrameOf(scan: Scan, size: nat, withCodec: bool, raw: nat): VideoFrame
    requires size <= |scan.mem| && (scan.outcome == Complete(size) || size > 0)
  {
    VideoFrame(Marked(scan.mem[..size], scan.outcome == Complete(size)), scan.count + (if withCodec then 2 else 0), raw)
  }

  function HandleVideo(env: Env, st0: State, raw: nat, payload: seq<byte>): (State, seq<VideoFrame>) {
    var st := DropStale(st0, raw);
    var prefix := Prefix(st);
    var size := |prefix| + |payload|;
    var scan := VideoScan(env, st, payload);
    var detected := st.h265 || scan.outcome == H265;
    var st' := st.(used := st.used + |payload|, spsPps := if st.prepend then None else st.spsPps, h265 := detected);
    assert scan.outcome != Complete(size) ==> size > 0;
    if detected then (st', []) else (st'.(prepend := false), [FrameOf(scan, size, st.prepend, raw)])
  }

  function SpsSize(payload: seq<byte>): int
    requires |payload| >= 8
  {
    Pow256Values();
    AsInt16(FromBE(payload[6..8]))
  }

  function PpsSize(payload: seq<byte>): int
    requires |payload| >= 8 && 0 <= SpsSize(payload) <= |payload| - 11
  {
    Pow256Values();
    var n := SpsSize(payload);
    AsInt16(FromBE(payload[n + 9..n + 11]))
  }

  /** The lengths a codec packet states fit into it; the source reads past the packet otherwise. */
  predicate CodecFits(payload: seq<byte>) {
    |payload| >= 8 && 0 <= SpsSize(payload) <= |payload| - 11 && 0 <= PpsSize(payload) <= |payload| - 11 - SpsSize(payload)
  }

  /** The SPS and the PPS of a codec packet, each behind a start code. */
  function CodecStream(payload: seq<byte>): seq<byte>
    requires CodecFits(payload)
  {
    var n, m := SpsSize(payload), PpsSize(payload);
    START_CODE + payload[8..8 + n] + START_CODE + payload[n + 11..n + 11 + m]
  }

  function HandleCodec(st: State, raw: nat, payload: seq<byte>): State
    requires |payload| > 0 ==> CodecFits(payload)
  {
    if |payload| == 0 then st
    else st.(codecTime := raw, spsPps := Some(CodecStream(payload)), prepend := true)
  }

  /** The rewriting of a video packet looks at bytes behind the output buffer. */
  predicate LooksOutside(env: Env, st0: State, p: Packet)
    requires |p.header| == HEADER
  {
    var st := DropStale(st0, RawTimestamp(p.header));
    p.header[4] == 0 &&
      LooksBehind(Prefix(st) + XorStream(env.ks, st.used, p.payload) + Behind(env, st.used),
                  |Prefix(st)|, |p.payload|, |Prefix(st)|, st.h265)
  }

  /** The packet is one on which the C code fails no assertion and overflows no sum; no frame is
      shorter than the carried keystream, and a codec packet holds its SPS and PPS. A frame may still
      make the rewriting look at bytes behind its buffer: that is `LooksOutside`. */
  predicate Playable(env: Env, st: State, p: Packet) {
    && |p.header| == HEADER && PayloadSize(p.header) == |p.payload| < 0x8000_0000
    && (p.header[4] == 0 ==>
          && Carry(st.used) <= |p.payload|
          && (DropStale(st, RawTimestamp(p.header)).prepend ==> st.spsPps.Some?)
          && VideoScan(env, DropStale(st, RawTimestamp(p.header)), p.payload).outcome != SizeOverflow)
    && (p.header[4] == 1 && |p.payload| > 0 ==> CodecFits(p.payload))
  }

  /** The switch on the packet type. */
  function Handle(env: Env, st: State, p: Packet): (State, seq<VideoFrame>)
    requires Playable(env, st, p)
  {
    if p.header[4] == 0 then HandleVideo(env, st, RawTimestamp(p.header), p.payload)
    else if p.header[4] == 1 then (HandleCodec(st, RawTimestamp(p.header), p.payload), [])
    else (st, [])
  }

  datatype Run = Run(state: State, frames: seq<VideoFrame>)

  predicate PlayableAll(env: Env, packets: seq<Packet>)
    decreases |packets|, 0
  {
    |packets| > 0 ==>
      && PlayableAll(env, packets[..|packets| - 1])
      && Playable(env, HandleAll(env, packets[..|packets| - 1]).state, packets[|packets| - 1])
  }

  /** A run over packets from the start of the thread. */
  function HandleAll(env: Env, packets: seq<Packet>): Run
    requires PlayableAll(env, packets)
    decreases |packets|, 1
  {
    if |packets| == 0 then Run(INITIAL, [])
    else
      var before := HandleAll(env, packets[..|packets| - 1]);
      var (st, out) := Handle(env, before.state, packets[|packets| - 1]);
      Run(st, before.frames + out)
  }

  /** The packet can be handled, and this is what comes of it. */
  predicate Goes(env: Env, st: State, p: Packet, st': State, out: seq<VideoFrame>) {
    Playable(env, st, p) && Handle(env, st, p) == (st', out)
  }

  lemma HandleNext(env: Env, before: seq<Packet>, p: Packet, st': State, out: seq<VideoFrame>)
    requires PlayableAll(env, before) && Goes(env, HandleAll(env, before).state, p, st', out)
    ensures PlayableAll(env, before + [p])
    ensures HandleAll(env, before + [p]) == Run(st', HandleAll(env, before).frames + out)
  {
    assert (before + [p])[..|before|] == before && (before + [p])[|before|] == p;
    hide Handle, Playable;
  }

  lemma {:induction false} PlayablePrefix(env: Env, packets: seq<Packet>, n: nat)
    requires n <= |packets| && PlayableAll(env, packets)
    ensures PlayableAll(env, packets[..n])
    ensures HandleAll(env, packets[..n]).frames <= HandleAll(env, packets).frames
    decreases |packets|
  {
    if n == |packets| {
      assert packets[..n] == packets;
    } else {
      PlayablePrefix(env, packets[..|packets| - 1], n);
      assert packets[..|packets| - 1][..n] == packets[..n];
    }
  }

  lemma ParseNext(wire: seq<byte>, done: seq<byte>, p: Packet)
    requires done + p.header + p.payload <= wire && Parse(done).rest == []
    requires |p.header| == HEADER && PayloadSize(p.header) == |p.payload|
    ensures Parse(done + p.header + p.payload) == Parsed(Parse(done).packets + [p], [])
    ensures Parse(done).packets + [p] <= Parse(wire).packets
  {
    hide Parse;
    var now, packets := done + p.header + p.payload, Parse(done).packets;
    Associate(done, p.header, p.payload);
    ParseAppend(done, p.header + p.payload);
    assert [] + (p.header + p.payload) == p.header + p.payload;
    ParseOne(p);
    assert wire == now + wire[|now|..];
    ParseAppend(now, wire[|now|..]);
  }

  /** One more packet behind packets already handled, in a stream that can be played: the packet
      can be handled, and the run goes on with it. */
  lemma NextPacket(env: Env, wire: seq<byte>, done: seq<byte>, p: Packet)
    requires PlayableAll(env, Parse(wire).packets)
    requires done + p.header + p.payload <= wire && Parse(done).rest == []
    requires |p.header| == HEADER && PayloadSize(p.header) == |p.payload|
    ensures Parse(done + p.header + p.payload) == Parsed(Parse(done).packets + [p], [])
    ensures PlayableAll(env, Parse(done).packets + [p])
    ensures PlayableAll(env, Parse(done).packets) && Playable(env, HandleAll(env, Parse(done).packets).state, p)
    ensures HandleAll(env, Parse(done).packets + [p])
         == Run(Handle(env, HandleAll(env, Parse(done).packets).state, p).0,
                HandleAll(env, Parse(done).packets).frames + Handle(env, HandleAll(env, Parse(done).packets).state, p).1)
  {
    hide Handle, Playable, Parse;
    ParseNext(wire, done, p);
    var packets := Parse(done).packets;
    PlayablePrefix(env, Parse(wire).packets, |packets| + 1);
    assert Parse(wire).packets[..|packets| + 1] == packets + [p];
    assert (packets + [p])[..|packets|] == packets && (packets + [p])[|packets|] == p;
  }

  /** In every run, a pending SPS+PPS is there to be prepended, unless H.265 was detected. */
  lemma {:induction false} PendingIsHeld(env: Env, packets: seq<Packet>)
    requires PlayableAll(env, packets)
    ensures var st := HandleAll(env, packets).state; st.prepend && !st.h265 ==> st.spsPps.Some?
    decreases |packets|
  {
    if |packets| > 0 {
      PendingIsHeld(env, packets[..|packets| - 1]);
    }
  }

  /** One frame leaves the flag without the SPS+PPS exactly if it takes them and H.265 is seen, in this
      frame or before it. A frame that is valid itself does so too. */
  lemma H265LeavesFlag(env: Env, st: State, raw: nat, payload: seq<byte>)
    requires st.prepend ==> st.spsPps.Some?
    ensures var st' := HandleVideo(env, st, raw, payload).0;
      && (st'.prepend && st'.spsPps.None? <==> DropStale(st, raw).prepend && st'.h265)
      && (st'.h265 <==> st.h265 || VideoScan(env, DropStale(st, raw), payload).outcome == H265)
  {
    hide ScanFrom, XorStream;
  }

  /** The first byte of what the decoder gets tells a failed rewrite from a good one, when the
      pending SPS+PPS is one the thread has built. */
  lemma FirstByteOf(env: Env, st0: State, raw: nat, payload: seq<byte>)
    requires |HandleVideo(env, st0, raw, payload).1| > 0 && |payload| > 0
    requires var prefix := Prefix(DropStale(st0, raw)); prefix == [] || (|prefix| >= 4 && prefix[..4] == START_CODE)
    ensures var data := HandleVideo(env, st0, raw, payload).1[0].data;
      && |data| > 0
      && (data[0] == 1 <==> VideoScan(env, DropStale(st0, raw), payload).outcome != Complete(|data|))
  {
    var st := DropStale(st0, raw);
    var prefix, size := Prefix(st), |Prefix(st)| + |payload|;
    hide XorStream, ScanFrom;
    if VideoScan(env, st, payload).outcome == Complete(size) {
      ValidStart(prefix, XorStream(env.ks, st.used, payload), Behind(env, st.used), st.h265);
    }
  }

  /** A valid, non-empty output starts with a start code, its own or the prefix's. */
  lemma ValidStart(prefix: seq<byte>, plain: seq<byte>, behind: seq<byte>, seen: bool)
    requires |behind| == 2 && |plain| > 0 && (prefix == [] || (|prefix| >= 4 && prefix[..4] == START_CODE))
    requires ScanFrom(prefix + plain + behind, |prefix|, |plain|, |prefix|, 0, seen).outcome == Complete(|prefix| + |plain|)
    ensures ScanFrom(prefix + plain + behind, |prefix|, |plain|, |prefix|, 0, seen).mem[0] == 0
  {
    hide ScanFrom;
    var nals := ValidTiles(prefix + plain + behind, |prefix|, |plain|, |prefix|, 0, seen);
    Middle(prefix, plain, behind);
    FirstUnit(nals);
    if prefix != [] {
      assert prefix[..4][0] == 0;
    }
  }

  /** Once H.265 was seen, it stays so, and no frame is handed over any more. */
  lemma {:induction false} NoFramesAfterH265(env: Env, packets: seq<Packet>, n: nat)
    requires n <= |packets| && PlayableAll(env, packets)
    requires PlayableAll(env, packets[..n]) && HandleAll(env, packets[..n]).state.h265
    ensures HandleAll(env, packets).state.h265 && HandleAll(env, packets).frames == HandleAll(env, packets[..n]).frames
    decreases |packets|
  {
    if n == |packets| {
      assert packets[..n] == packets;
    } else {
      assert packets[..|packets| - 1][..n] == packets[..n];
      NoFramesAfterH265(env, packets[..|packets| - 1], n);
      hide VideoScan, RawTimestamp, CodecStream, CodecFits;
    }
  }

  // ---- What lies behind the output buffer ----

  /** What lies behind the output buffer decides how this frame's rewriting ends. */
  predicate BehindDecides(env: Env, st: State, payload: seq<byte>) {
    Decides(Prefix(st) + XorStream(env.ks, st.used, payload) + Behind(env, st.used),
            |Prefix(st)|, |payload|, |Prefix(st)|, st.h265)
  }

  /** The same client, with these two bytes behind the buffer. */
  function EnvWith(env: Env, x: byte, y: byte): Env {
    env.(behind := (n: nat) => (x, y))
  }

  lemma ScanWith(env: Env, st: State, payload: seq<byte>, x: byte, y: byte)
    ensures var n := |Prefix(st)|;
      var mem := Prefix(st) + XorStream(env.ks, st.used, payload) + Behind(env, st.used);
      VideoScan(EnvWith(env, x, y), st, payload) == ScanFrom(WithBehind(mem, n + |payload|, x, y), n, |payload|, n, 0, st.h265)
  {
    hide ScanFrom, XorStream, Prefix;
    var front := Prefix(st) + XorStream(env.ks, st.used, payload);
    assert (front + Behind(env, st.used))[..|front|] == front;
    assert WithBehind(front + Behind(env, st.used), |front|, x, y) == front + Behind(EnvWith(env, x, y), st.used);
  }

  /** The outcome of a frame's rewriting depends on the bytes behind if and only if they decide. */
  lemma OutcomeDependsExactly(env: Env, st: State, payload: seq<byte>)
    ensures BehindDecides(env, st, payload) <==> exists x: byte, y: byte, x': byte, y': byte ::
      VideoScan(EnvWith(env, x, y), st, payload).outcome != VideoScan(EnvWith(env, x', y'), st, payload).outcome
  {
    hide BehindDecides, VideoScan, EnvWith;
    if BehindDecides(env, st, payload) {
      var x, y := DecidingBytes(env, st, payload);
    } else {
      forall x: byte, y: byte
        ensures VideoScan(EnvWith(env, x, y), st, payload).outcome == VideoScan(env, st, payload).outcome
      {
        EnvWithKeys(env, x, y);
        SameScan(env, EnvWith(env, x, y), st, payload);
      }
    }
  }

  /** What the callback gets, and the thread's state, depend on them if and only if they decide and
      H.265 was not seen before: then they can make a frame pass or vanish. */
  lemma FrameDependsExactly(env: Env, st0: State, raw: nat, payload: seq<byte>)
    ensures !st0.h265 && BehindDecides(env, DropStale(st0, raw), payload) <==> exists x: byte, y: byte, x': byte, y': byte ::
      HandleVideo(EnvWith(env, x, y), st0, raw, payload) != HandleVideo(EnvWith(env, x', y'), st0, raw, payload)
  {
    var st := DropStale(st0, raw);
    hide ScanFrom, XorStream, Prefix, BehindDecides, VideoScan, EnvWith, FrameOf;
    if !st0.h265 && BehindDecides(env, st, payload) {
      var x, y := DecidingBytes(env, st, payload);
      assert HandleVideo(EnvWith(env, x, y), st0, raw, payload) != HandleVideo(EnvWith(env, 0, 0), st0, raw, payload);
    } else {
      forall x: byte, y: byte
        ensures HandleVideo(EnvWith(env, x, y), st0, raw, payload) == HandleVideo(env, st0, raw, payload)
      {
        EnvWithKeys(env, x, y);
        SameFrame(env, EnvWith(env, x, y), st0, raw, payload);
      }
    }
  }

  lemma EnvWithKeys(env: Env, x: byte, y: byte)
    ensures EnvWith(env, x, y).ks == env.ks
  {
  }

  lemma DecidingBytes(env: Env, st: State, payload: seq<byte>) returns (x: byte, y: byte)
    requires BehindDecides(env, st, payload)
    ensures VideoScan(EnvWith(env, x, y), st, payload).outcome == H265
    ensures VideoScan(EnvWith(env, 0, 0), st, payload).outcome != H265
  {
    hide ScanFrom, XorStream, Prefix, WithBehind, Decides;
    var n := |Prefix(st)|;
    x, y := NalRewrite.BehindDecides(Prefix(st) + XorStream(env.ks, st.used, payload) + Behind(env, st.used), n, |payload|, n, 0, st.h265);
    ScanWith(env, st, payload, x, y);
    ScanWith(env, st, payload, 0, 0);
  }

  lemma SameScan(env: Env, env': Env, st: State, payload: seq<byte>)
    requires env'.ks == env.ks && !BehindDecides(env, st, payload)
    ensures var r, r', size := VideoScan(env, st, payload), VideoScan(env', st, payload), |Prefix(st)| + |payload|;
      r.outcome == r'.outcome && r.count == r'.count && r.mem[..size] == r'.mem[..size]
  {
    hide ScanFrom, XorStream, Decides, Prefix;
    var n, front := |Prefix(st)|, Prefix(st) + XorStream(env.ks, st.used, payload);
    assert (front + Behind(env, st.used))[..|front|] == front == (front + Behind(env', st.used))[..|front|];
    BehindIsIgnored(front + Behind(env, st.used), front + Behind(env', st.used), n, |payload|, n, 0, st.h265);
  }

  /** Whatever lies behind, the frame is the same, unless it decides in a run without H.265. */
  lemma SameFrame(env: Env, env': Env, st0: State, raw: nat, payload: seq<byte>)
    requires env'.ks == env.ks && (st0.h265 || !BehindDecides(env, DropStale(st0, raw), payload))
    ensures HandleVideo(env', st0, raw, payload) == HandleVideo(env, st0, raw, payload)
  {
    hide VideoScan, BehindDecides, Prefix;
    if !st0.h265 {
      SameScan(env, env', DropStale(st0, raw), payload);
    }
  }
}
