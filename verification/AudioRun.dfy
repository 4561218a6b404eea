/** Whole runs of the audio buffer against a client that encrypts and numbers its packets: what
    comes out is what was sent. */
module AudioRuns {
  import opened Bytes
  import opened Options
  import opened Reorder
  import opened RaopBuffers

  /** The RTP packet of number `n`: twelve header bytes, of which the buffer looks at the number
      alone, and the encrypted payload. */
  function Datagram(key: CbcKey, pad: seq<byte>, n: int, payload: seq<byte>): (d: seq<byte>)
    requires |pad| == 10
  {
    pad[..2] + ToBE(Low16(n), 2) + pad[2..] + Encode(key, payload)
  }

  /** The arrivals the buffer is made for: an audio payload of a fitting length, and a number less
      than half the 16-bit space away from the first one in the buffer. */
  ghost predicate Sendable(ops: seq<Op>) {
    forall i :: 0 <= i < |ops| && ops[i].Arrive? ==>
      && |ops[i].p.payload| <= 32756 && ops[i].p.payload != MARKER
      && (Run(ops[..i]).w.started ==> -0x8000 <= ops[i].n - Run(ops[..i]).w.base < 0x8000)
  }

  lemma EncodeLength(key: CbcKey, payload: seq<byte>)
    ensures |Encode(key, payload)| == |payload|
    ensures |payload| == 4 ==> Encode(key, payload) == payload
  {
    assert |payload| == 4 ==> payload[..0] == [] && payload[0..] == payload;
  }

  lemma DatagramFields(key: CbcKey, pad: seq<byte>, n: int, payload: seq<byte>)
    requires |pad| == 10 && |payload| <= 32756 && payload != MARKER
    requires forall b: Block :: key.decrypt(key.encrypt(b)) == b
    ensures var d := Datagram(key, pad, n, payload);
      IsAudio(d) && FromBE(d[2..4]) == Low16(n) && Decode(key, d[12..]) == payload
  {
    hide Encode, Decode, Low16, ToBE, FromBE;
    EncodeLength(key, payload);
    DecodeEncode(key, payload);
    Pow256Values();
    FromToBE(Low16(n), 2);
    var d := Datagram(key, pad, n, payload);
    assert d[2..4] == ToBE(Low16(n), 2);
    assert d[12..] == Encode(key, payload);
    assert |d| == 16 ==> d[12..16] == d[12..];
  }

  lemma {:induction false} TakenWereSent(ops: seq<Op>, k: nat)
    requires k < |Run(ops).taken|
    ensures exists i :: 0 <= i < |ops| && ops[i] == Arrive(Run(ops).taken[k].0, Run(ops).taken[k].1)
    decreases |ops|
  {
    var n := |ops| - 1;
    var before := Run(ops[..n]);
    if k < |before.taken| && Run(ops).taken[k] == before.taken[k] {
      TakenWereSent(ops[..n], k);
      var i :| 0 <= i < n && ops[..n][i] == Arrive(before.taken[k].0, before.taken[k].1);
      assert ops[i] == ops[..n][i];
    } else {
      assert ops[n] == Arrive(Run(ops).taken[k].0, Run(ops).taken[k].1);
    }
  }

  /** Delivered packets, with their numbers cut down to 16 bits. */
  ghost predicate Shows(out: seq<Delivered>, sent: seq<(int, Packet)>) {
    |out| == |sent| && forall i :: 0 <= i < |out| ==> out[i] == Delivered(Low16(sent[i].0), sent[i].1)
  }

  /** Any run of arrivals, deliveries and flushes on a fresh buffer. What was delivered since the
      last restart has strictly increasing unbounded numbers, and each packet is one that was sent
      under its number. Nothing is lost: what was taken in was delivered, thrown away, or is held. */
  method Play(key: CbcKey, pad: seq<byte>, ops: seq<Op>) returns (buffer: RaopBuffer, out: seq<Delivered>, ghost sent: seq<(int, Packet)>)
    requires |pad| == 10 && Forward(ops) && Sendable(ops)
    requires forall b: Block :: key.decrypt(key.encrypt(b)) == b
    ensures buffer.Valid() && buffer.w == Run(ops).w
    ensures Shows(out, sent)
    ensures forall i, j :: 0 <= i < j < |sent| ==> sent[i].0 < sent[j].0
    ensures forall i :: 0 <= i < |sent| ==> Arrive(sent[i].0, sent[i].1) in ops
    ensures |Run(ops).taken| == |out| + Run(ops).dropped + |buffer.w.held|
  {
    hide Step, Low16, Good;
    buffer := new RaopBuffer(key);
    out := [];
    var i := 0;
    assert ops[..0] == [];
    while i < |ops|
      invariant 0 <= i <= |ops| && fresh(buffer) && fresh(buffer.entries) && fresh(buffer.ctx)
      invariant buffer.Valid() && buffer.ctx.key == key
      invariant buffer.w == Run(ops[..i]).w && Shows(out, Run(ops[..i]).out)
    {
      assert ops[..i + 1][..i] == ops[..i];
      out := PlayOne(buffer, pad, ops[i], out, Run(ops[..i]));
      i := i + 1;
    }
    assert ops[..i] == ops;
    sent := Run(ops).out;
    EveryRunIsGood(ops);
    OutWasSent(ops);
  }

  lemma OutWasSent(ops: seq<Op>)
    requires Good(Run(ops))
    ensures var log := Run(ops);
      && (forall i, j :: 0 <= i < j < |log.out| ==> log.out[i].0 < log.out[j].0)
      && (forall i :: 0 <= i < |log.out| ==> Arrive(log.out[i].0, log.out[i].1) in ops)
      && |log.taken| == |log.out| + log.dropped + |log.w.held|
  {
    hide Run;
    forall i | 0 <= i < |Run(ops).out| ensures Arrive(Run(ops).out[i].0, Run(ops).out[i].1) in ops {
      assert Run(ops).out[i] in Run(ops).taken;
      var k :| 0 <= k < |Run(ops).taken| && Run(ops).taken[k] == Run(ops).out[i];
      TakenWereSent(ops, k);
    }
  }

  /** One call on the buffer. */
  method PlayOne(buffer: RaopBuffer, pad: seq<byte>, op: Op, out: seq<Delivered>, ghost log: Log) returns (out': seq<Delivered>)
    requires buffer.Valid() && buffer.w == log.w && Shows(out, log.out)
    requires |pad| == 10 && forall b: Block :: buffer.ctx.key.decrypt(buffer.ctx.key.encrypt(b)) == b
    requires op.Arrive? ==> |op.p.payload| <= 32756 && op.p.payload != MARKER
                            && (log.w.started ==> -0x8000 <= op.n - log.w.base < 0x8000)
    modifies buffer, buffer.entries, buffer.ctx
    ensures buffer.Valid() && buffer.w == Step(log, op).w && Shows(out', Step(log, op).out)
  {
    hide Low16, Datagram, FromBE, Decode;
    out' := out;
    match op {
      case Arrive(n, p) =>
        DatagramFields(buffer.ctx.key, pad, n, p.payload);
        var bytes := Datagram(buffer.ctx.key, pad, n, p.payload);
        var data := new byte[|bytes|](i requires 0 <= i < |bytes| => bytes[i]);
        assert data[..] == bytes && data[2..4] == bytes[2..4] && data[12..] == bytes[12..];
        var ret := buffer.Enqueue(data, p.ntp, p.rtp, true, n);
      case Deliver(noResend) =>
        var result := buffer.Dequeue(noResend);
        if result.Some? {
          out' := out + [result.value];
        }
      case Flush(None) =>
        buffer.Flush(-1, 0);
        out' := [];
      case Flush(Some(next)) =>
        buffer.Flush(Low16(next), next);
    }
  }
}
