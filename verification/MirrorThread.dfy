/** The mirror thread: the resumable reading of packets from a TCP connection, the handling of
    each complete packet, and the whole run over one connection (raop_rtp_mirror.c). */
module MirrorThreads {
  import opened Bytes
  import opened Seqs
  import opened MirrorBuffers
  import opened NalRewrite
  import opened Options
  import opened MirrorProtocol

  /** What the next `recv` will do: hand over at most `n` bytes, run into its timeout, report an
      orderly close, or fail. */
  datatype RecvEvent = Arrive(n: nat) | TimedOut | Closed | Failed

  /** Nothing but bytes and timeouts. */
  predicate Calm(events: seq<RecvEvent>) {
    forall i :: 0 <= i < |events| ==> events[i].Arrive? || events[i].TimedOut?
  }

  /** Bytes and timeouts, and then this. */
  predicate EndsWith(events: seq<RecvEvent>, last: RecvEvent) {
    |events| > 0 && events[|events| - 1] == last && Calm(events[..|events| - 1])
  }

  /** How many of the events bring bytes, if any are left. */
  function Hits(events: seq<RecvEvent>): nat {
    if |events| == 0 then 0 else Hits(events[1..]) + (if events[0].Arrive? && events[0].n > 0 then 1 else 0)
  }

  /** What `recv` answers to an event, with so many bytes wanted and so many left. */
  predicate Answers(event: RecvEvent, want: nat, left: nat, ret: int, again: bool) {
    match event
    case Arrive(n) =>
      if n == 0 || left == 0 then ret == -1 && again
      else 0 < ret <= n && ret <= want && ret <= left && (ret == n || ret == want || ret == left)
    case TimedOut => ret == -1 && again
    case Closed => ret == 0
    case Failed => ret == -1 && !again
  }

  lemma OneMore(past: seq<RecvEvent>, event: RecvEvent, want: nat, left: nat, ret: int, again: bool)
    requires Calm(past) && Answers(event, want, left, ret, again) && want > 0
    ensures if ret > 0 || (ret == -1 && again) then Calm(past + [event])
            else EndsWith(past + [event], if ret == 0 then Closed else Failed)
  {
    assert (past + [event])[..|past|] == past;
  }

  /** A connection: the bytes the client sends, and a schedule of what `recv` does with them. */
  class Connection {
    const wire: seq<byte>
    var position: nat
    var script: seq<RecvEvent>
    ghost var past: seq<RecvEvent>  // the events that have happened

    ghost predicate Valid()
      reads this
    {
      position <= |wire|
    }

    constructor (wire: seq<byte>, script: seq<RecvEvent>)
      ensures Valid() && this.wire == wire && this.script == script && position == 0 && past == []
    {
      this.wire, this.script, position, past := wire, script, 0, [];
    }

    /** The schedule brings at least as many pieces as there are bytes left. */
    ghost predicate Enough()
      reads this
    {
      |wire| - position <= Hits(script)
    }

    /** `recv`: the number of bytes put into the buffer, 0 at a close, -1 otherwise, where `again`
        tells the timeout from a failure. */
    method Recv(buf: array<byte>, at: nat, want: nat) returns (ret: int, again: bool)
      requires Valid() && want > 0 && at + want <= buf.Length
      modifies this, buf
      ensures Valid() && -1 <= ret <= want
      ensures ret > 0 ==> position == old(position) + ret
      ensures ret > 0 ==> buf[..] == Splice(old(buf[..]), at, wire[old(position)..position])
      ensures ret <= 0 ==> position == old(position) && buf[..] == old(buf[..])
      ensures old(script) != [] ==> |script| < |old(script)|
      ensures old(script) != [] ==> past == old(past) + [old(script)[0]] && script == old(script)[1..]
      ensures old(script) != [] ==> Answers(old(script)[0], want, |wire| - old(position), ret, again)
      ensures old(script) == [] ==> script == [] && past == old(past) && ret == -1 && again
      ensures old(Enough()) ==> Enough()
    {
      ret, again := -1, true;
      if script == [] {
        return;
      }
      var event := script[0];
      past := past + [event];
      script := script[1..];
      match event {
        case TimedOut =>
        case Closed => ret := 0;
        case Failed => again := false;
        case Arrive(n) =>
          var k := if n < want then n else want;
          k := if k < |wire| - position then k else |wire| - position;
          if k == 0 {
            return;
          }
          ret := k;
          ghost var piece := wire[position..position + k];
          var i := 0;
          while i < k
            modifies buf
            invariant 0 <= i <= k
            invariant forall j :: at <= j < at + i ==> buf[j] == piece[j - at]
            invariant forall j :: 0 <= j < at || at + i <= j < buf.Length ==> buf[j] == old(buf[j])
          {
            buf[at + i] := wire[position + i];
            i := i + 1;
          }
          position := position + k;
      }
    }
  }

  /** The thread reads; the client closed within a header; the thread has ended; or a header states
      2^31 bytes or more, which the C `int` takes for a negative size that no `malloc` grants. */
  datatype Status = Reading | ClosedInHeader | Ended | Oversized

  class MirrorThread {
    const env: Env
    const packet: array<byte>
    var payload: array?<byte>
    var readstart: nat
    var status: Status

    var spsPps: Option<seq<byte>>
    var prepend: bool
    var codecTime: nat
    var h265: bool
    const buffer: MirrorBuffer

    var frames: seq<VideoFrame>  // the calls of the video callback, in order
    ghost var done: seq<byte>    // the bytes of all packets handled so far

    ghost function Repr(): set<object>
      reads this
    {
      {this, packet, buffer, buffer.ctx, buffer.ctx.waste, buffer.og} + (if payload == null then {} else {payload})
    }

    /** The buffers are in order: nothing is shared, and a payload in progress has the size its
        header states. */
    ghost predicate Wired()
      reads this, Repr()
    {
      && packet.Length == HEADER
      && buffer.Valid() && buffer.ctx.ks == env.ks
      && packet !in {buffer.og, buffer.ctx.waste}
      && (payload != null ==>
            payload !in {packet, buffer.og, buffer.ctx.waste} && payload.Length == PayloadSize(packet[..]))
    }

    /** Between two passes of the loop the header or the payload is incomplete, unless the thread
        stopped at a header of an impossible size. */
    ghost predicate Sound()
      reads this, Repr()
    {
      && Wired()
      && if status == Oversized then payload == null && readstart == HEADER && PayloadSize(packet[..]) >= 0x8000_0000
         else readstart < if payload == null then HEADER else payload.Length
    }

    ghost function StateOf(): State
      requires buffer.Valid()
      reads this, buffer, buffer.ctx, buffer.og
    {
      State(buffer.Consumed(), spsPps, prepend, codecTime, h265)
    }

    /** The bytes of the packet that is still coming in. */
    ghost function Pending(): seq<byte>
      requires Sound()
      reads this, Repr()
    {
      if payload == null then packet[..readstart] else packet[..] + payload[..readstart]
    }

    /** All that was received, and no more, has been framed and handled as the bytes say. */
    ghost predicate Valid()
      reads this, Repr()
    {
      && Sound()
      && Parse(done).rest == []
      && PlayableAll(env, Parse(done).packets)
      && HandleAll(env, Parse(done).packets) == Run(StateOf(), frames)
    }

    constructor (env: Env)
      ensures Valid() && this.env == env && fresh(Repr())
      ensures status == Reading && frames == [] && done == [] && Pending() == []
    {
      this.env := env;
      packet := new byte[HEADER](_ => 0);
      payload, readstart, status := null, 0, Reading;
      spsPps, prepend, codecTime, h265 := None, false, 0, false;
      buffer := new MirrorBuffer(env.ks);
      frames, done := [], [];
    }

    /** `case 0x00`: decrypts a video packet behind the pending SPS+PPS, rewrites it, and calls
        the video callback. */
    method VideoPacket()
      requires Wired() && payload != null
      requires packet[4] == 0 && Playable(env, StateOf(), Packet(packet[..], payload[..]))
      modifies this`spsPps, this`prepend, this`h265, this`frames
      modifies buffer, buffer.ctx, buffer.ctx.waste, buffer.og, payload
      ensures Wired()
      ensures var (st, out) := HandleVideo(env, old(StateOf()), RawTimestamp(packet[..]), old(payload[..]));
        StateOf() == st && frames == old(frames) + out
    {
      hide ScanFrom, XorStream, FromLE, Behind, FrameOf, CodecFits;
      var raw := RawTimestamp(packet[..]);
      ghost var st, bytes := DropStale(StateOf(), raw), payload[..];
      var prefix := TakePrefix(raw);
      var out, valid, count, detected := Decode(prefix);
      Deliver(out, |prefix| + payload.Length, valid, count, detected, raw, VideoScan(env, st, bytes));
    }

    /** Allocates the output buffer, decrypts the payload into it and rewrites it there. */
    method Decode(prefix: seq<byte>) returns (out: array<byte>, valid: bool, count: nat, detected: bool)
      requires Wired() && payload != null && Carry(buffer.Consumed()) <= payload.Length
      modifies buffer, buffer.ctx, buffer.ctx.waste, buffer.og, payload
      ensures Wired() && fresh(out) && buffer.Consumed() == old(buffer.Consumed()) + payload.Length
      ensures var mem := prefix + XorStream(env.ks, old(buffer.Consumed()), old(payload[..])) + Behind(env, old(buffer.Consumed()));
        var scan := ScanFrom(mem, |prefix|, payload.Length, |prefix|, 0, h265);
        && out[..] == scan.mem && count == scan.count
        && valid == (scan.outcome == Complete(|prefix| + payload.Length))
        && detected == (h265 || scan.outcome == H265)
      ensures valid || payload.Length > 0
    {
      hide ScanFrom, XorStream;
      var used := buffer.ctx.position - buffer.nextDecryptCount;
      out := OutputBuffer(prefix, payload.Length, Behind(env, used));
      DecryptInto(out, |prefix|, prefix, Behind(env, used));
      var overflow;
      valid, count, detected, overflow := Rewrite(out, |prefix|, payload.Length, h265);
    }

    /** Throws a pending SPS+PPS of another time away, and takes one of this time. */
    method TakePrefix(raw: nat) returns (prefix: seq<byte>)
      requires buffer.Valid() && (DropStale(StateOf(), raw).prepend ==> spsPps.Some?)
      modifies this`spsPps, this`prepend
      ensures var st := DropStale(old(StateOf()), raw);
        prefix == Prefix(st) && StateOf() == st.(spsPps := if st.prepend then None else st.spsPps)
    {
      if prepend && raw != codecTime {
        spsPps, prepend := None, false;
      }
      prefix := [];
      if prepend {
        prefix, spsPps := spsPps.value, None;
      }
    }

    /** After the rewrite: drops H.265, marks an invalid frame, and calls the video callback. */
    method Deliver(out: array<byte>, size: nat, valid: bool, count: nat, detected: bool, raw: nat, ghost scan: Scan)
      requires out[..] == scan.mem && count == scan.count && valid == (scan.outcome == Complete(size))
      requires size <= out.Length && (valid || size > 0)
      modifies this`prepend, this`h265, this`frames, out
      ensures h265 == detected && prepend == (old(prepend) && detected)
      ensures frames == old(frames) + if detected then [] else [FrameOf(scan, size, old(prepend), raw)]
    {
      h265 := detected;
      if h265 {
        return;
      }
      if !valid {
        out[0] := 1;
      }
      assert out[..size] == Marked(scan.mem[..size], valid);
      frames := frames + [VideoFrame(out[..size], count + (if prepend then 2 else 0), raw)];
      prepend := false;
    }

    /** `malloc`, with the SPS+PPS copied to the front and what lies behind made explicit. */
    method OutputBuffer(prefix: seq<byte>, size: nat, behind: seq<byte>) returns (out: array<byte>)
      requires |behind| == 2
      ensures fresh(out) && out[..] == prefix + seq(size, _ => 0) + behind
    {
      out := new byte[|prefix| + size + 2](i requires 0 <= i < |prefix| + size + 2 =>
        if i < |prefix| then prefix[i] else if i < |prefix| + size then 0 else behind[i - |prefix| - size]);
    }

    method DecryptInto(out: array<byte>, at: nat, ghost prefix: seq<byte>, ghost behind: seq<byte>)
      requires Wired() && payload != null && Carry(buffer.Consumed()) <= payload.Length
      requires out !in Repr()
      requires at == |prefix| && out[..] == prefix + seq(payload.Length, _ => 0) + behind
      modifies buffer, buffer.ctx, buffer.ctx.waste, buffer.og, payload, out
      ensures Wired() && buffer.Consumed() == old(buffer.Consumed()) + payload.Length
      ensures out[..] == prefix + XorStream(env.ks, old(buffer.Consumed()), old(payload[..])) + behind
    {
      hide Splice, XorStream;
      buffer.CarryCount();
      assert payload[..payload.Length] == payload[..];
      SpliceOver(prefix, seq(payload.Length, _ => 0), behind, XorStream(env.ks, buffer.Consumed(), payload[..]));
      buffer.Decrypt(payload, out, at, payload.Length);
    }

    /** `case 0x01`: keeps the SPS and the PPS, each behind a start code, for the next packet. */
    method CodecPacket()
      requires Wired() && payload != null && (payload.Length > 0 ==> CodecFits(payload[..]))
      modifies this`spsPps, this`prepend, this`codecTime
      ensures StateOf() == HandleCodec(old(StateOf()), RawTimestamp(packet[..]), payload[..])
    {
      if payload.Length == 0 {
        return;
      }
      codecTime := RawTimestamp(packet[..]);
      Pow256Values();
      assert payload[6..8] == payload[..][6..8];
      var spsSize := AsInt16(FromBE(payload[6..8]));
      assert payload[spsSize + 9..spsSize + 11] == payload[..][spsSize + 9..spsSize + 11];
      var ppsSize := AsInt16(FromBE(payload[spsSize + 9..spsSize + 11]));
      assert payload[8..8 + spsSize] == payload[..][8..8 + spsSize];
      assert payload[spsSize + 11..spsSize + 11 + ppsSize] == payload[..][spsSize + 11..spsSize + 11 + ppsSize];
      spsPps := Some(START_CODE + payload[8..8 + spsSize] + START_CODE + payload[spsSize + 11..spsSize + 11 + ppsSize]);
      prepend := true;
    }

    /** The switch on the packet type, on a complete packet. */
    method HandlePacket()
      requires Wired() && payload != null && Playable(env, StateOf(), Packet(packet[..], payload[..]))
      modifies this`spsPps, this`prepend, this`codecTime, this`h265, this`frames
      modifies buffer, buffer.ctx, buffer.ctx.waste, buffer.og, payload
      ensures Wired()
      ensures var (st, out) := Handle(env, old(StateOf()), Packet(packet[..], old(payload[..])));
        StateOf() == st && frames == old(frames) + out
    {
      hide HandleVideo, HandleCodec;
      match packet[4] {
        case 0x00 => VideoPacket();
        case 0x01 => CodecPacket();
        case _ =>
      }
    }

    /** What the thread's status tells of the events so far, and only they: it reads on through any
        timeout, and stops at a close or a failure. */
    ghost predicate Explains(conn: Connection)
      reads this, conn
    {
      match status
      case Reading => Calm(conn.past)
      case Oversized => Calm(conn.past)
      case ClosedInHeader => EndsWith(conn.past, Closed) && payload == null
      case Ended => EndsWith(conn.past, Failed) || (EndsWith(conn.past, Closed) && payload != null)
    }

    /** Either of the two `recv` loops: goes on filling a buffer from `readstart`. */
    method Fill(conn: Connection, buf: array<byte>, ret0: int) returns (ret: int, again: bool)
      requires conn.Valid() && readstart <= buf.Length && ret0 > 0 && Calm(conn.past)
      modifies this`readstart, conn, buf
      ensures conn.past + conn.script == old(conn.past + conn.script) && (old(conn.Enough()) ==> conn.Enough())
      ensures if ret > 0 || (ret == -1 && again) then Calm(conn.past) else EndsWith(conn.past, if ret == 0 then Closed else Failed)
      ensures conn.Valid() && old(readstart) <= readstart <= buf.Length && old(conn.position) <= conn.position
      ensures buf[..readstart] == old(buf[..readstart]) + conn.wire[old(conn.position)..conn.position]
      ensures -1 <= ret && (readstart < buf.Length <==> ret <= 0)
      ensures if old(readstart) < buf.Length then |conn.script| < |old(conn.script)| || conn.script == old(conn.script) == []
              else conn.script == old(conn.script)
    {
      hide Calm, EndsWith, Answers, Hits, Splice;
      ret, again := ret0, false;
      ghost var start, head := conn.position, buf[..readstart];
      while readstart < buf.Length
        invariant conn.past + conn.script == old(conn.past + conn.script) && (old(conn.Enough()) ==> conn.Enough())
        invariant Calm(conn.past)
        invariant conn.Valid() && start <= conn.position && old(readstart) <= readstart <= buf.Length && ret > 0
        invariant buf[..readstart] == head + conn.wire[start..conn.position]
        invariant |conn.script| <= |old(conn.script)|
        invariant readstart == old(readstart) ==> conn.script == old(conn.script)
        invariant readstart > old(readstart) ==> |conn.script| < |old(conn.script)|
      {
        ghost var was, p, r := buf[..], conn.position, readstart;
        ghost var events, next, left := conn.past, conn.script, |conn.wire| - conn.position;
        ret, again := conn.Recv(buf, readstart, buf.Length - readstart);
        if next != [] {
          OneMore(events, next[0], buf.Length - r, left, ret, again);
        }
        if ret <= 0 {
          assert buf[..r] == was[..r];
          break;
        }
        readstart := readstart + ret;
        SpliceCut(was, r, conn.wire[p..conn.position], readstart);
        assert conn.wire[start..p] + conn.wire[p..conn.position] == conn.wire[start..conn.position];
      }
    }

    /** A complete packet: handled, and the buffers made ready for the next header. */
    method FinishPacket(ghost wire: seq<byte>)
      requires Wired() && status == Reading && payload != null && readstart == payload.Length
      requires PlayableAll(env, Parse(wire).packets) && done + packet[..] + payload[..] <= wire
      requires Parse(done).rest == [] && PlayableAll(env, Parse(done).packets)
      requires HandleAll(env, Parse(done).packets) == Run(StateOf(), frames)
      modifies Repr()
      ensures Valid() && Repr() <= old(Repr()) && payload == null && status == old(status)
      ensures done == old(done + packet[..] + payload[..]) && Pending() == []
    {
      hide Handle, HandleAll, PlayableAll, Playable, Parse;
      NextPacket(env, wire, done, Packet(packet[..], payload[..]));
      done := done + packet[..] + payload[..];
      HandlePacket();
      payload := null;
      var i := 0;
      while i < HEADER
        modifies packet
      {
        packet[i] := 0;
        i := i + 1;
      }
      readstart := 0;
    }

    /** All that `recv` has delivered is in the handled packets and the one in progress. */
    ghost predicate Follows(conn: Connection)
      requires Sound()
      reads this, Repr(), conn
    {
      conn.Valid() && done + Pending() == conn.wire[..conn.position]
    }

    /** One pass of the thread's loop on a connection that `select` reports as readable. */
    method Poll(conn: Connection)
      requires Valid() && conn !in Repr() && status == Reading && Follows(conn) && Calm(conn.past)
      requires PlayableAll(env, Parse(conn.wire).packets)
      modifies Repr(), conn
      ensures Explains(conn) && conn.past + conn.script == old(conn.past + conn.script)
      ensures old(conn.Enough()) ==> conn.Enough()
      ensures Valid() && conn !in Repr() && fresh(Repr() - old(Repr())) && Follows(conn)
      ensures |conn.script| < |old(conn.script)| || conn.script == old(conn.script) == []
    {
      hide Parse, HandleAll, PlayableAll, Calm, EndsWith, Hits;
      var ret := 1;
      if payload == null {
        var again;
        ghost var was := packet[..readstart];
        Extend(conn.wire, conn.position, conn.position, done, was);
        ret, again := Fill(conn, packet, ret);
        Extend(conn.wire, |done + was|, conn.position, done, was);
        if ret == 0 {
          status := ClosedInHeader;
          return;
        } else if ret == -1 {
          if !again {
            status := Ended;
          }
          return;
        }
        assert packet[..readstart] == packet[..];
        if PayloadSize(packet[..]) >= 0x8000_0000 {
          status := Oversized;
          return;
        }
        payload := new byte[PayloadSize(packet[..])];
        readstart := 0;
        assert packet[..] + payload[..readstart] == packet[..];
      }
      PollPayload(conn, ret);
    }

    /** The second half of a pass: the payload, and its packet once it is complete. */
    method PollPayload(conn: Connection, ret0: int)
      requires Wired() && status == Reading && payload != null && readstart <= payload.Length
      requires ret0 > 0 && conn !in Repr() && conn.Valid() && Calm(conn.past)
      requires done + (packet[..] + payload[..readstart]) == conn.wire[..conn.position]
      requires PlayableAll(env, Parse(conn.wire).packets)
      requires Parse(done).rest == [] && PlayableAll(env, Parse(done).packets)
      requires HandleAll(env, Parse(done).packets) == Run(StateOf(), frames)
      modifies Repr(), conn
      ensures Explains(conn) && conn.past + conn.script == old(conn.past + conn.script)
      ensures old(conn.Enough()) ==> conn.Enough()
      ensures Valid() && Repr() <= old(Repr()) && Follows(conn)
      ensures if old(readstart < payload.Length) then |conn.script| < |old(conn.script)| || conn.script == old(conn.script) == []
              else conn.script == old(conn.script)
    {
      hide Parse, HandleAll, PlayableAll, Calm, EndsWith, Hits;
      ghost var head, was := packet[..], payload[..readstart];
      ghost var p := conn.position;
      var ret, again := Fill(conn, payload, ret0);
      assert payload[..readstart] == was + conn.wire[p..conn.position];
      Associate(head, was, conn.wire[p..conn.position]);
      Extend(conn.wire, p, conn.position, done, head + was);
      if ret == 0 {
        status := Ended;
        return;
      } else if ret == -1 {
        if !again {
          status := Ended;
        }
        return;
      }
      assert payload[..readstart] == payload[..];
      Associate(done, packet[..], payload[..]);
      FinishPacket(conn.wire);
    }

    /** The thread's loop on one connection, until the schedule or the connection ends: whatever
        the cuts and timeouts, the calls of the video callback are those of the bytes received. It
        ends exactly at a failure, a close, or a header of an impossible size, and until then it
        receives all that comes. */
    method ServeConnection(conn: Connection)
      requires Valid() && conn !in Repr() && Follows(conn) && Explains(conn)
      requires PlayableAll(env, Parse(conn.wire).packets)
      modifies Repr(), conn
      ensures Valid() && conn.Valid()
      ensures conn.script == [] || status != Reading
      ensures conn.past + conn.script == old(conn.past + conn.script) && Explains(conn)
      ensures status == Ended <==> Failed in conn.past || (Closed in conn.past && payload != null)
      ensures status == ClosedInHeader <==> Closed in conn.past && payload == null
      ensures old(conn.Enough()) && status == Reading ==> conn.position == |conn.wire|
      ensures status == Oversized ==>
        var rest := Parse(conn.wire[..conn.position]).rest; |rest| == HEADER && PayloadSize(rest[..HEADER]) >= 0x8000_0000
      ensures PlayableAll(env, Parse(conn.wire[..conn.position]).packets)
      ensures HandleAll(env, Parse(conn.wire[..conn.position]).packets) == Run(StateOf(), frames)
      ensures Parse(conn.wire[..conn.position]).rest == Pending()
    {
      hide Parse, HandleAll, PlayableAll;
      while status == Reading && conn.script != []
        invariant Valid() && conn !in Repr() && Follows(conn) && fresh(Repr() - old(Repr()))
        invariant Explains(conn) && conn.past + conn.script == old(conn.past + conn.script)
        invariant old(conn.Enough()) ==> conn.Enough()
        decreases |conn.script|
      {
        Poll(conn);
      }
      FramesAreParsed();
      assert status == Oversized ==> Pending()[..HEADER] == packet[..];
    }

    /** The receiver's state depends on the received bytes alone. */
    lemma FramesAreParsed()
      requires Valid()
      ensures Parse(done + Pending()) == Parsed(Parse(done).packets, Pending())
    {
      ParseAppend(done, Pending());
      assert [] + Pending() == Pending();
      if payload != null || status == Oversized {
        assert Pending()[..HEADER] == packet[..];
      }
      assert !HasPacket(Pending());
      assert Parse(done).packets + [] == Parse(done).packets;
    }
  }
}
