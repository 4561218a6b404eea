/** A well-behaved H.264 client, and the end-to-end theorem: however TCP cuts its stream, the video
    callback gets the start-code form of its frames. */
module MirrorSender {
  import opened Bytes
  import opened MirrorBuffers
  import opened NalRewrite
  import opened Options
  import opened MirrorProtocol
  import opened MirrorThreads

  /** What a client sends: a frame of NAL units, an SPS with a PPS, or a packet of another kind.
      `pad` holds the header bytes that carry nothing the receiver uses. */
  datatype Item =
    | Video(time: nat, pad: seq<byte>, nals: seq<seq<byte>>)
    | Codec(time: nat, pad: seq<byte>, lead: seq<byte>, sps: seq<byte>, mid: byte, pps: seq<byte>, tail: seq<byte>)
    | Other(time: nat, pad: seq<byte>, kind: byte, body: seq<byte>)

  /** The payload before encryption. */
  function Plain(item: Item): seq<byte> {
    match item
    case Video(_, _, nals) => LengthPrefixed(nals)
    case Codec(_, _, lead, sps, mid, pps, tail) =>
      lead + ToBE(|sps|, 2) + sps + [mid] + ToBE(|pps|, 2) + pps + tail
    case Other(_, _, _, body) => body
  }

  function Kind(item: Item): byte {
    match item
    case Video(_, _, _) => 0
    case Codec(_, _, _, _, _, _, _) => 1
    case Other(_, _, kind, _) => kind
  }

  predicate WellFormed(item: Item) {
    && |item.pad| == 115 && item.time < 0x1_0000_0000_0000_0000 && |Plain(item)| < 0x8000_0000
    && match item
       case Video(_, _, nals) => forall i :: 0 <= i < |nals| ==> |nals[i]| >= 2 && IsH264(nals[i])
       case Codec(_, _, lead, sps, _, pps, _) => |lead| == 6 && |sps| < 0x8000 && |pps| < 0x8000
       case Other(_, _, kind, _) => kind > 1
  }

  /** Keystream bytes used by the video packets among `items`. */
  function Used(items: seq<Item>): nat {
    if |items| == 0 then 0
    else Used(items[..|items| - 1]) + (if items[|items| - 1].Video? then |Plain(items[|items| - 1])| else 0)
  }

  /** A stream the receiver can play: each item well formed, and no video packet shorter than the
      keystream remainder carried into it (15 bytes are always enough). */
  predicate WellFormedStream(items: seq<Item>) {
    forall i :: 0 <= i < |items| ==>
      WellFormed(items[i]) && (items[i].Video? ==> Carry(Used(items[..i])) <= |Plain(items[i])|)
  }

  function HeaderOf(item: Item): (h: seq<byte>)
    requires |item.pad| == 115
    ensures |h| == HEADER
  {
    ToLE(|Plain(item)|, 4) + [Kind(item)] + item.pad[..3] + ToLE(item.time, 8) + item.pad[3..]
  }

  /** Video payloads are encrypted with the next keystream bytes; the others go in the clear. */
  function PacketOf(ks: Keystream, used: nat, item: Item): Packet
    requires |item.pad| == 115
  {
    Packet(HeaderOf(item), if item.Video? then XorStream(ks, used, Plain(item)) else Plain(item))
  }

  function Packets(ks: Keystream, items: seq<Item>): seq<Packet>
    requires forall i :: 0 <= i < |items| ==> WellFormed(items[i])
  {
    if |items| == 0 then []
    else
      var before, last := items[..|items| - 1], items[|items| - 1];
      assert WellFormed(last);
      Packets(ks, before) + [PacketOf(ks, Used(before), last)]
  }

  /** The byte stream on the connection. */
  function Wire(ks: Keystream, items: seq<Item>): seq<byte>
    requires forall i :: 0 <= i < |items| ==> WellFormed(items[i])
  {
    if |items| == 0 then []
    else
      var before, last := items[..|items| - 1], items[|items| - 1];
      assert WellFormed(last);
      var p := PacketOf(ks, Used(before), last);
      Wire(ks, before) + p.header + p.payload
  }

  /** The codec packet that is still waiting for a frame after `items`: the last one, if no frame
      came after it. */
  function Waiting(items: seq<Item>): (j: Option<nat>)
    ensures j.Some? ==> j.value < |items| && items[j.value].Codec?
  {
    if |items| == 0 then None
    else match items[|items| - 1]
      case Codec(_, _, _, _, _, _, _) => Some(|items| - 1)
      case Video(_, _, _) => None
      case Other(_, _, _, _) => Waiting(items[..|items| - 1])
  }

  /** The codec packet whose SPS+PPS precede frame `i`: one that waits, and has its time stamp. */
  function CodecFor(items: seq<Item>, i: nat): (j: Option<nat>)
    requires i < |items|
    ensures j.Some? ==> j.value < i && items[j.value].Codec? && items[j.value].time == items[i].time
  {
    var j := Waiting(items[..i]);
    if j.Some? && items[j.value].time == items[i].time then j else None
  }

  function CodecBytes(item: Item): seq<byte>
    requires item.Codec?
  {
    START_CODE + item.sps + START_CODE + item.pps
  }

  /** What the decoder should get for frame `i`. */
  function ExpectedFrame(items: seq<Item>, i: nat): VideoFrame
    requires i < |items| && items[i].Video?
  {
    match CodecFor(items, i)
    case Some(j) => VideoFrame(CodecBytes(items[j]) + AnnexB(items[i].nals), |items[i].nals| + 2, items[i].time)
    case None => VideoFrame(AnnexB(items[i].nals), |items[i].nals|, items[i].time)
  }

  function Expected(items: seq<Item>): seq<VideoFrame> {
    if |items| == 0 then []
    else
      var n := |items| - 1;
      Expected(items[..n]) + if items[n].Video? then [ExpectedFrame(items, n)] else []
  }

  lemma {:induction false} WaitingSkipsFrames(items: seq<Item>, i: nat)
    requires i < |items| && items[i].Video? && Waiting(items).Some?
    ensures i < Waiting(items).value
    decreases |items|
  {
    if i < |items| - 1 && items[|items| - 1].Other? {
      WaitingSkipsFrames(items[..|items| - 1], i);
    }
  }

  /** No SPS+PPS is prepended twice. */
  lemma UsedOnce(items: seq<Item>, i: nat, k: nat)
    requires i < k < |items| && items[i].Video? && items[k].Video? && CodecFor(items, i).Some?
    ensures CodecFor(items, k) != CodecFor(items, i)
  {
    if CodecFor(items, k).Some? {
      WaitingSkipsFrames(items[..k], i);
    }
  }

  lemma HeaderFields(item: Item)
    requires WellFormed(item)
    ensures PayloadSize(HeaderOf(item)) == |Plain(item)|
    ensures HeaderOf(item)[4] == Kind(item)
    ensures RawTimestamp(HeaderOf(item)) == item.time
  {
    Pow256Values();
    FromToLE(|Plain(item)|, 4);
    FromToLE(item.time, 8);
    hide ToLE, FromLE;
    var h, size, time := HeaderOf(item), ToLE(|Plain(item)|, 4), ToLE(item.time, 8);
    assert h[..4] == size && h[8..16] == time;
  }

  lemma {:induction false} WireParses(ks: Keystream, items: seq<Item>)
    requires forall i :: 0 <= i < |items| ==> WellFormed(items[i])
    ensures Parse(Wire(ks, items)) == Parsed(Packets(ks, items), [])
    decreases |items|
  {
    if |items| > 0 {
      var before, last := items[..|items| - 1], items[|items| - 1];
      WireParses(ks, before);
      HeaderFields(last);
      var p := PacketOf(ks, Used(before), last);
      hide Parse;
      ParseNext(Wire(ks, items), Wire(ks, before), p);
    }
  }

  /** The receiver's state after the packets of `items`. */
  predicate Agrees(st: State, items: seq<Item>) {
    && st.used == Used(items) && !st.h265
    && st.prepend == Waiting(items).Some?
    && (st.prepend ==> var item := items[Waiting(items).value];
          st.spsPps == Some(CodecBytes(item)) && st.codecTime == item.time)
  }

  /** The SPS+PPS bytes in front of frame `i`, or nothing. */
  function CodecPrefix(items: seq<Item>, i: nat): seq<byte>
    requires i < |items|
  {
    match CodecFor(items, i)
    case Some(j) => CodecBytes(items[j])
    case None => []
  }

  lemma PrefixIsCodecPrefix(items: seq<Item>, st: State)
    requires |items| > 0 && Agrees(st, items[..|items| - 1])
    ensures var d := DropStale(st, items[|items| - 1].time);
      && Prefix(d) == CodecPrefix(items, |items| - 1) && d.used == st.used && !d.h265
      && d.prepend == CodecFor(items, |items| - 1).Some? && (d.prepend ==> d.spsPps.Some?)
  {
    var before := items[..|items| - 1];
    if Waiting(before).Some? {
      assert before[Waiting(before).value] == items[Waiting(before).value];
    }
  }

  /** A frame's payload, decrypted and rewritten behind any SPS+PPS. */
  lemma ScanOfFrame(env: Env, d: State, nals: seq<seq<byte>>)
    requires forall i :: 0 <= i < |nals| ==> |nals[i]| >= 2 && IsH264(nals[i])
    requires |LengthPrefixed(nals)| < 0x8000_0000 && !d.h265
    ensures VideoScan(env, d, XorStream(env.ks, d.used, LengthPrefixed(nals)))
         == Scan(Prefix(d) + AnnexB(nals) + Behind(env, d.used), Complete(|Prefix(d)| + |LengthPrefixed(nals)|), |nals|)
  {
    XorStreamTwice(env.ks, d.used, LengthPrefixed(nals));
    hide ScanFrom, XorStream, LengthPrefixed, AnnexB;
    ScanLengthPrefixed(Prefix(d), nals, Behind(env, d.used), |Prefix(d)|, |LengthPrefixed(nals)|, 0);
  }

  /** The state and the callback after a frame, in terms of what was pending before. */
  function AfterFrame(d: State, size: nat): State {
    State(d.used + size, if d.prepend then None else d.spsPps, false, d.codecTime, false)
  }

  function FrameAfter(prefix: seq<byte>, prepended: bool, nals: seq<seq<byte>>, raw: nat): VideoFrame {
    VideoFrame(prefix + AnnexB(nals), |nals| + (if prepended then 2 else 0), raw)
  }

  lemma VideoOfFrame(env: Env, st: State, raw: nat, nals: seq<seq<byte>>)
    requires forall i :: 0 <= i < |nals| ==> |nals[i]| >= 2 && IsH264(nals[i])
    requires |LengthPrefixed(nals)| < 0x8000_0000 && !st.h265
    ensures var d := DropStale(st, raw);
      HandleVideo(env, st, raw, XorStream(env.ks, st.used, LengthPrefixed(nals)))
      == (AfterFrame(d, |LengthPrefixed(nals)|), [FrameAfter(Prefix(d), d.prepend, nals, raw)])
  {
    hide ScanFrom, XorStream, LengthPrefixed, AnnexB, VideoScan, Behind, Prefix, FrameOf;
    var d := DropStale(st, raw);
    ScanOfFrame(env, d, nals);
    FrameOfScan(Prefix(d), AnnexB(nals), Behind(env, d.used), |nals|, d.prepend, raw);
    assert d.used == st.used && !d.h265;
    var scan := VideoScan(env, d, XorStream(env.ks, st.used, LengthPrefixed(nals)));
    assert scan.outcome == Complete(|Prefix(d)| + |LengthPrefixed(nals)|);
    assert FrameOf(scan, |Prefix(d)| + |LengthPrefixed(nals)|, d.prepend, raw) == FrameAfter(Prefix(d), d.prepend, nals, raw);
  }

  lemma FrameOfScan(prefix: seq<byte>, units: seq<byte>, behind: seq<byte>, count: nat, prepended: bool, raw: nat)
    ensures FrameOf(Scan(prefix + units + behind, Complete(|prefix| + |units|), count), |prefix| + |units|, prepended, raw)
         == VideoFrame(prefix + units, count + (if prepended then 2 else 0), raw)
  {
    assert (prefix + units + behind)[..|prefix| + |units|] == prefix + units;
  }

  lemma FrameGoes(env: Env, st: State, item: Item)
    requires item.Video? && WellFormed(item) && !st.h265 && Carry(st.used) <= |Plain(item)|
    requires DropStale(st, item.time).prepend ==> st.spsPps.Some?
    ensures var d := DropStale(st, item.time);
      Goes(env, st, PacketOf(env.ks, st.used, item), AfterFrame(d, |Plain(item)|), [FrameAfter(Prefix(d), d.prepend, item.nals, item.time)])
  {
    hide HeaderOf, XorStream, LengthPrefixed, HandleVideo, VideoScan, AfterFrame, FrameAfter, RawTimestamp, PayloadSize, Prefix;
    HeaderFields(item);
    VideoOfFrame(env, st, item.time, item.nals);
    ScanOfFrame(env, DropStale(st, item.time), item.nals);
  }

  lemma FrameStep(env: Env, items: seq<Item>, st: State) returns (st': State)
    requires |items| > 0 && items[|items| - 1].Video? && WellFormed(items[|items| - 1])
    requires Agrees(st, items[..|items| - 1]) && Carry(st.used) <= |Plain(items[|items| - 1])|
    ensures Goes(env, st, PacketOf(env.ks, st.used, items[|items| - 1]), st', [ExpectedFrame(items, |items| - 1)])
    ensures Agrees(st', items)
  {
    var item := items[|items| - 1];
    var d := DropStale(st, item.time);
    PrefixIsCodecPrefix(items, st);
    FrameGoes(env, st, item);
    hide Goes, PacketOf, AnnexB, Plain, CodecFor;
    st' := AfterFrame(d, |Plain(item)|);
    assert [] + AnnexB(item.nals) == AnnexB(item.nals);
  }

  /** The codec packet's own lengths lead to its SPS and PPS. */
  lemma CodecFields(item: Item)
    requires item.Codec? && WellFormed(item)
    ensures CodecFits(Plain(item)) && CodecStream(Plain(item)) == CodecBytes(item)
  {
    hide FromBE, ToBE;
    Pow256Values();
    FromToBE(|item.sps|, 2);
    FromToBE(|item.pps|, 2);
    var s, n, m := Plain(item), |item.sps|, |item.pps|;
    assert s[6..8] == ToBE(n, 2);
    assert s[n + 9..n + 11] == ToBE(m, 2);
    assert s[8..8 + n] == item.sps;
    assert s[n + 11..n + 11 + m] == item.pps;
  }

  lemma CodecStep(env: Env, items: seq<Item>, st: State) returns (st': State)
    requires |items| > 0 && items[|items| - 1].Codec? && WellFormed(items[|items| - 1])
    requires Agrees(st, items[..|items| - 1])
    ensures Goes(env, st, PacketOf(env.ks, st.used, items[|items| - 1]), st', []) && Agrees(st', items)
  {
    hide HeaderOf, CodecFits, CodecStream, CodecBytes, RawTimestamp, PayloadSize, HandleVideo;
    var item := items[|items| - 1];
    HeaderFields(item);
    CodecFields(item);
    st' := HandleCodec(st, item.time, Plain(item));
  }

  lemma OtherStep(env: Env, items: seq<Item>, st: State)
    requires |items| > 0 && items[|items| - 1].Other? && WellFormed(items[|items| - 1])
    requires Agrees(st, items[..|items| - 1])
    ensures Goes(env, st, PacketOf(env.ks, st.used, items[|items| - 1]), st, []) && Agrees(st, items)
  {
    hide HeaderOf, HandleVideo, RawTimestamp, PayloadSize;
    HeaderFields(items[|items| - 1]);
  }

  lemma StreamPrefix(items: seq<Item>, n: nat)
    requires n <= |items| && WellFormedStream(items)
    ensures WellFormedStream(items[..n])
  {
    forall i | 0 <= i < n
      ensures WellFormed(items[..n][i]) && (items[..n][i].Video? ==> Carry(Used(items[..n][..i])) <= |Plain(items[..n][i])|)
    {
      assert items[..n][..i] == items[..i];
    }
  }

  /** The packets of a well-formed stream can be played, and the callbacks are those expected. */
  lemma {:induction false} Receives(env: Env, items: seq<Item>)
    requires WellFormedStream(items)
    ensures PlayableAll(env, Packets(env.ks, items))
    ensures var run := HandleAll(env, Packets(env.ks, items)); Agrees(run.state, items) && run.frames == Expected(items)
    decreases |items|
  {
    hide Agrees, PacketOf, ExpectedFrame, Carry, Plain, Goes, HandleAll, PlayableAll, Packets, Expected, WellFormed;
    if |items| == 0 {
      NoItems(env);
    } else {
      var n := |items| - 1;
      StreamPrefix(items, n);
      Receives(env, items[..n]);
      LastItem(env.ks, items);
      var before := Packets(env.ks, items[..n]);
      var st := HandleAll(env, before).state;
      AgreesUsed(st, items[..n]);
      var st', out := ItemStep(env, items, st);
      HandleNext(env, before, PacketOf(env.ks, st.used, items[n]), st', out);
    }
  }

  lemma NoItems(env: Env)
    ensures Packets(env.ks, []) == [] && Expected([]) == []
    ensures PlayableAll(env, []) && HandleAll(env, []).frames == [] && Agrees(HandleAll(env, []).state, [])
  {
  }

  lemma LastItem(ks: Keystream, items: seq<Item>)
    requires |items| > 0 && forall i :: 0 <= i < |items| ==> WellFormed(items[i])
    ensures |items[|items| - 1].pad| == 115
    ensures var n := |items| - 1;
      && Packets(ks, items) == Packets(ks, items[..n]) + [PacketOf(ks, Used(items[..n]), items[n])]
      && Expected(items) == Expected(items[..n]) + if items[n].Video? then [ExpectedFrame(items, n)] else []
  {
    hide PacketOf, ExpectedFrame;
    assert WellFormed(items[|items| - 1]);
  }

  lemma ItemStep(env: Env, items: seq<Item>, st: State) returns (st': State, out: seq<VideoFrame>)
    requires |items| > 0 && WellFormed(items[|items| - 1]) && Agrees(st, items[..|items| - 1])
    requires items[|items| - 1].Video? ==> Carry(st.used) <= |Plain(items[|items| - 1])|
    ensures Goes(env, st, PacketOf(env.ks, st.used, items[|items| - 1]), st', out) && Agrees(st', items)
    ensures out == if items[|items| - 1].Video? then [ExpectedFrame(items, |items| - 1)] else []
  {
    hide Agrees, PacketOf, Goes, ExpectedFrame, Carry, Plain, WellFormed;
    out := [];
    match items[|items| - 1] {
      case Video(_, _, _) =>
        st' := FrameStep(env, items, st);
        out := [ExpectedFrame(items, |items| - 1)];
      case Codec(_, _, _, _, _, _, _) =>
        st' := CodecStep(env, items, st);
      case Other(_, _, _, _) =>
        OtherStep(env, items, st);
        st' := st;
    }
  }

  /** On a well-formed client's frames the rewriting never looks behind its buffer. */
  lemma FramesStayInside(env: Env, items: seq<Item>, i: nat)
    requires WellFormedStream(items) && i < |items|
    ensures PlayableAll(env, Packets(env.ks, items[..i]))
    ensures WellFormed(items[i]) && Used(items[..i]) == HandleAll(env, Packets(env.ks, items[..i])).state.used
    ensures !LooksOutside(env, HandleAll(env, Packets(env.ks, items[..i])).state, PacketOf(env.ks, Used(items[..i]), items[i]))
  {
    StreamPrefix(items, i);
    Receives(env, items[..i]);
    var st := HandleAll(env, Packets(env.ks, items[..i])).state;
    AgreesUsed(st, items[..i]);
    HeaderFields(items[i]);
    if items[i].Video? {
      var d, plain := DropStale(st, items[i].time), LengthPrefixed(items[i].nals);
      XorStreamTwice(env.ks, d.used, plain);
      UnitsStayInside(Prefix(d), items[i].nals, Behind(env, d.used), |Prefix(d)|, |plain|);
      hide LooksBehind, XorStream, LengthPrefixed, HandleAll, Packets, PlayableAll, Prefix, Behind, RawTimestamp, HeaderOf;
    }
  }

  lemma AgreesUsed(st: State, items: seq<Item>)
    requires Agrees(st, items)
    ensures st.used == Used(items)
  {
  }

  /** Wherever the stream is cut, the packets received so far can be played and give the first of
      the expected frames, and all of them once the stream is complete. */
  lemma CutAnywhere(env: Env, items: seq<Item>, n: nat)
    requires WellFormedStream(items) && n <= |Wire(env.ks, items)|
    ensures PlayableAll(env, Parse(Wire(env.ks, items)).packets)
    ensures var got := Parse(Wire(env.ks, items)[..n]).packets;
      && PlayableAll(env, got) && HandleAll(env, got).frames <= Expected(items)
      && (n == |Wire(env.ks, items)| ==> HandleAll(env, got).frames == Expected(items))
  {
    hide Parse, Packets, HandleAll, PlayableAll, Expected, Wire;
    Receives(env, items);
    WireParses(env.ks, items);
    ParsePrefix(Wire(env.ks, items), n);
    PlayablePrefix(env, Packets(env.ks, items), |Parse(Wire(env.ks, items)[..n]).packets|);
  }

  /** A header that stands in the client's stream states the size of one of its payloads. */
  lemma HeadersAreSmall(ks: Keystream, items: seq<Item>, n: nat)
    requires (forall i :: 0 <= i < |items| ==> WellFormed(items[i])) && n <= |Wire(ks, items)|
    ensures var rest := Parse(Wire(ks, items)[..n]).rest;
      |rest| >= HEADER ==> PayloadSize(rest[..HEADER]) < 0x8000_0000
  {
    WireParses(ks, items);
    PacketsAreSmall(ks, items);
    hide Parse, Wire, Packets, PayloadSize, WellFormed;
    var wire := Wire(ks, items);
    assert wire == wire[..n] + wire[n..];
    if |Parse(wire[..n]).rest| >= HEADER {
      RestHeader(wire[..n], wire[n..]);
    }
  }

  lemma {:induction false} PacketsAreSmall(ks: Keystream, items: seq<Item>)
    requires forall i :: 0 <= i < |items| ==> WellFormed(items[i])
    ensures var packets := Packets(ks, items);
      forall i :: 0 <= i < |packets| ==> |packets[i].header| == HEADER && PayloadSize(packets[i].header) < 0x8000_0000
    decreases |items|
  {
    if |items| > 0 {
      var n := |items| - 1;
      PacketsAreSmall(ks, items[..n]);
      LastItem(ks, items);
      HeaderFields(items[n]);
      assert |Plain(items[n])| < 0x8000_0000;
      hide Packets, PayloadSize, Plain, HeaderOf;
    }
  }

  /** End to end: a fresh receiver on a connection to this client, whatever the schedule of cuts,
      timeouts and errors, has called the video callback with the expected frames, in order; with
      all of them, if all bytes came. On a schedule without closes and failures it reads on, and with
      as many pieces as there are bytes it has received them all. */
  method Receive(env: Env, items: seq<Item>, script: seq<RecvEvent>) returns (thread: MirrorThread, conn: Connection)
    requires WellFormedStream(items)
    ensures fresh(thread) && fresh(conn) && conn.wire == Wire(env.ks, items) && conn.position <= |conn.wire|
    ensures conn.script == [] || thread.status != Reading
    ensures thread.frames <= Expected(items)
    ensures conn.position == |conn.wire| ==> thread.frames == Expected(items)
    ensures conn.past + conn.script == script && thread.status != Oversized
    ensures thread.status == Reading <==> Calm(conn.past)
    ensures thread.status == Ended <==> Failed in conn.past || (Closed in conn.past && thread.payload != null)
    ensures Calm(script) && Hits(script) >= |conn.wire| ==>
      thread.status == Reading && conn.position == |conn.wire| && thread.frames == Expected(items)
  {
    hide Parse, Packets, HandleAll, PlayableAll, Expected, Wire;
    thread := new MirrorThread(env);
    conn := new Connection(Wire(env.ks, items), script);
    CutAnywhere(env, items, 0);
    assert [] == conn.wire[..0];
    assert conn.past + conn.script == script;
    thread.ServeConnection(conn);
    CutAnywhere(env, items, conn.position);
    HeadersAreSmall(env.ks, items, conn.position);
    assert conn.past == (conn.past + conn.script)[..|conn.past|];
  }
}
