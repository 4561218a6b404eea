/** The audio packet buffer (raop_buffer.c): 32 slots under 16-bit sequence numbers, with CBC
    decryption of each packet on its own. It refines the window of module `Reorder`. */
module RaopBuffers {
  import opened Bytes
  import opened Options
  import opened Seqs
  import opened Reorder

  // ---- CBC, as far as the buffer uses it ----

  type Block = s: seq<byte> | |s| == 16 witness [0, 0, 0, 0, 0, 0, 0, 0, 0, 0, 0, 0, 0, 0, 0, 0]

  /** A block cipher under a key, both ways, and the initial vector. */
  datatype CbcKey = CbcKey(encrypt: Block -> Block, decrypt: Block -> Block, iv: Block)

  function XorBlock(a: Block, b: Block): Block {
    seq(16, i requires 0 <= i < 16 => Xor(a[i], b[i]))
  }

  function CbcDecrypt(key: CbcKey, chain: Block, cipher: seq<byte>): (r: seq<byte>)
    requires |cipher| % 16 == 0
    ensures |r| == |cipher|
    decreases |cipher|
  {
    if |cipher| == 0 then []
    else XorBlock(key.decrypt(cipher[..16]), chain) + CbcDecrypt(key, cipher[..16], cipher[16..])
  }

  function CbcEncrypt(key: CbcKey, chain: Block, plain: seq<byte>): (r: seq<byte>)
    requires |plain| % 16 == 0
    ensures |r| == |plain|
    decreases |plain|
  {
    if |plain| == 0 then []
    else
      var c := key.encrypt(XorBlock(plain[..16], chain));
      c + CbcEncrypt(key, c, plain[16..])
  }

  /** What the client does with a payload and what the buffer makes of it: the whole blocks go
      through CBC from the initial vector, the rest stays as it is. */
  function Encode(key: CbcKey, payload: seq<byte>): seq<byte> {
    var n := |payload| / 16 * 16;
    CbcEncrypt(key, key.iv, payload[..n]) + payload[n..]
  }

  function Decode(key: CbcKey, data: seq<byte>): (r: seq<byte>)
    ensures |r| == |data|
  {
    var n := |data| / 16 * 16;
    CbcDecrypt(key, key.iv, data[..n]) + data[n..]
  }

  lemma XorBlockTwice(a: Block, b: Block)
    ensures XorBlock(XorBlock(a, b), b) == a
  {
    forall i | 0 <= i < 16 ensures XorBlock(XorBlock(a, b), b)[i] == a[i] {
      XorTwice(a[i], b[i]);
    }
  }

  lemma {:induction false} CbcUndoes(key: CbcKey, chain: Block, plain: seq<byte>)
    requires |plain| % 16 == 0 && forall b: Block :: key.decrypt(key.encrypt(b)) == b
    ensures CbcDecrypt(key, chain, CbcEncrypt(key, chain, plain)) == plain
    decreases |plain|
  {
    if |plain| > 0 {
      var c: Block := key.encrypt(XorBlock(plain[..16], chain));
      var rest := CbcEncrypt(key, c, plain[16..]);
      assert (c + rest)[..16] == c && (c + rest)[16..] == rest;
      XorBlockTwice(plain[..16], chain);
      CbcUndoes(key, c, plain[16..]);
    }
  }

  lemma NextBlock(key: CbcKey, chain: Block, cipher: seq<byte>, i: nat)
    requires i + 16 <= |cipher| && i % 16 == 0 && |cipher| % 16 == 0
    ensures CbcDecrypt(key, chain, cipher[i..])
         == XorBlock(key.decrypt(cipher[i..i + 16]), chain) + CbcDecrypt(key, cipher[i..i + 16], cipher[i + 16..])
  {
    assert cipher[i..][..16] == cipher[i..i + 16] && cipher[i..][16..] == cipher[i + 16..];
  }

  /** Section 6.2 of NIST SP 800-38A: each plaintext block is the deciphered block, exclusive-or the
      ciphertext block before it, or the initial chaining block. */
  lemma {:induction false} BlockOfCbc(key: CbcKey, chain: Block, cipher: seq<byte>, i: nat, j: nat)
    requires |cipher| % 16 == 0 && 16 * i + 16 <= |cipher| && j < 16
    ensures var previous := if i == 0 then chain else cipher[16 * i - 16..16 * i];
      DifferingBits(CbcDecrypt(key, chain, cipher)[16 * i + j], key.decrypt(cipher[16 * i..16 * i + 16])[j], previous[j])
    decreases i
  {
    hide CbcDecrypt, DifferingBits;
    var c, rest := cipher[..16], cipher[16..];
    assert cipher[0..] == cipher && cipher[0..16] == c;
    NextBlock(key, chain, cipher, 0);
    if i == 0 {
      XorAt(key.decrypt(c)[j], chain[j]);
    } else {
      BlockOfCbc(key, c, rest, i - 1, j);
      hide XorBlock;
      var k := 16 * (i - 1);
      SliceOfTail(cipher, 16, k, k + 16);
      if i > 1 {
        SliceOfTail(cipher, 16, k - 16, k);
      } else {
        assert cipher[k..k + 16] == c;
      }
    }
  }

  /** All but the last up to 15 bytes go through the cipher, and those are copied. */
  lemma DecodeParts(key: CbcKey, data: seq<byte>)
    ensures var n := |data| - |data| % 16;
      n % 16 == 0 && Decode(key, data)[..n] == CbcDecrypt(key, key.iv, data[..n]) && Decode(key, data)[n..] == data[n..]
  {
    var n := |data| / 16 * 16;
    TwoParts(CbcDecrypt(key, key.iv, data[..n]), data[n..]);
  }

  /** Each packet decodes to what the client encoded, whatever came before it. */
  lemma DecodeEncode(key: CbcKey, payload: seq<byte>)
    requires forall b: Block :: key.decrypt(key.encrypt(b)) == b
    ensures Decode(key, Encode(key, payload)) == payload
  {
    var n := |payload| / 16 * 16;
    var c := CbcEncrypt(key, key.iv, payload[..n]);
    CbcUndoes(key, key.iv, payload[..n]);
    assert (c + payload[n..])[..n] == c && (c + payload[n..])[n..] == payload[n..];
  }

  lemma NoBlock(key: CbcKey, chain: Block)
    ensures CbcDecrypt(key, chain, []) == []
  {
  }

  /** The cipher context: its chaining block moves with every call. */
  class AesCbc {
    const key: CbcKey
    var chain: Block

    constructor (key: CbcKey)
      ensures this.key == key && chain == key.iv
    {
      this.key, chain := key, key.iv;
    }

    method Decrypt(input: array<byte>, inAt: nat, output: array<byte>, len: nat)
      requires len % 16 == 0 && inAt + len <= input.Length && len <= output.Length && input != output
      modifies this`chain, output
      ensures output[..] == CbcDecrypt(key, old(chain), input[inAt..inAt + len]) + old(output[len..])
    {
      hide XorBlock, CbcDecrypt;
      ghost var cipher, was := input[inAt..inAt + len], output[..];
      ghost var whole := CbcDecrypt(key, chain, cipher);
      var i := 0;
      while i < len
        invariant 0 <= i <= len && i % 16 == 0
        invariant whole == output[..i] + CbcDecrypt(key, chain, cipher[i..])
        invariant forall j :: i <= j < output.Length ==> output[j] == was[j]
        invariant forall j :: 0 <= j < len ==> input[inAt + j] == cipher[j]
      {
        var block := GetBlock(input, inAt, i, cipher);
        NextBlock(key, chain, cipher, i);
        Associate(output[..i], XorBlock(key.decrypt(block), chain), CbcDecrypt(key, block, cipher[i + 16..]));
        PutBlock(XorBlock(key.decrypt(block), chain), output, i);
        chain := block;
        i := i + 16;
      }
      assert cipher[i..] == [];
      NoBlock(key, chain);
      assert output[..] == output[..len] + was[len..];
    }

    method GetBlock(input: array<byte>, inAt: nat, i: nat, ghost cipher: seq<byte>) returns (block: Block)
      requires i + 16 <= |cipher| && inAt + |cipher| <= input.Length
      requires forall j :: 0 <= j < |cipher| ==> input[inAt + j] == cipher[j]
      ensures block == cipher[i..i + 16]
    {
      block := input[inAt + i..inAt + i + 16];
      assert forall j :: 0 <= j < 16 ==> block[j] == input[inAt + (i + j)];
    }

    method PutBlock(block: Block, output: array<byte>, at: nat)
      requires at + 16 <= output.Length
      modifies output
      ensures output[..at + 16] == old(output[..at]) + block
      ensures forall j :: at + 16 <= j < output.Length ==> output[j] == old(output[j])
    {
      var i := 0;
      while i < 16
        invariant 0 <= i <= 16
        invariant forall j :: at <= j < at + i ==> output[j] == block[j - at]
        invariant forall j :: 0 <= j < at || at + i <= j < output.Length ==> output[j] == old(output[j])
      {
        output[at + i] := block[i];
        i := i + 1;
      }
    }

    method Reset()
      modifies this`chain
      ensures chain == key.iv
    {
      chain := key.iv;
    }
  }

  // ---- Sequence numbers ----

  /** The 16 bits of an unbounded number that travel with a packet. */
  function Low16(n: int): (r: nat)
    ensures r < 0x1_0000
  {
    n % 0x1_0000
  }

  function Slot(n: int): (r: nat)
    ensures r < 32
  {
    n % 32
  }

  /** `seqnum_cmp`: the difference of two 16-bit numbers, as a C `short`. */
  function SeqnumCmp(s1: nat, s2: nat): int {
    AsInt16((s1 - s2) % 0x1_0000)
  }

  /** The serial number arithmetic of RFC 1982, section 3.2: numbers less than half the space
      apart compare as the unbounded numbers do. */
  lemma SeqnumCmpIsDistance(m: int, n: int)
    requires -0x8000 <= m - n < 0x8000
    ensures SeqnumCmp(Low16(m), Low16(n)) == m - n
  {
    var k := m / 0x1_0000 - n / 0x1_0000;
    assert Low16(m) - Low16(n) == m - n - k * 0x1_0000;
    hide Low16;
    Reduced16(m - n, k);
  }

  lemma Reduced16(d: int, k: int)
    requires -0x8000 <= d < 0x8000
    ensures (d - k * 0x1_0000) % 0x1_0000 == if d < 0 then d + 0x1_0000 else d
  {
  }

  lemma Shifted16(n: int, k: int)
    ensures (n - 0x1_0000 * k) % 0x1_0000 == n % 0x1_0000
  {
  }

  lemma ShiftedSlot(n: int, j: int)
    ensures (n - 32 * j) % 32 == n % 32
  {
  }

  lemma AddNumber(n: int, k: int)
    ensures (Low16(n) + k) % 0x1_0000 == Low16(n + k)
  {
  }

  lemma SlotOfNumber(n: int)
    ensures Low16(n) % 32 == Slot(n)
  {
  }

  /** The numbers of a window have slots of their own; the next number shares the first slot. */
  lemma SlotsOfWindow(base: int)
    ensures forall m, n :: base <= m < n < base + 32 ==> Slot(m) != Slot(n)
    ensures Slot(base + 32) == Slot(base)
  {
  }

  /** The number of a window that shares its slot with `m`. */
  lemma SameSlot(base: int, m: int) returns (k: int)
    ensures base <= k < base + 32 && Slot(k) == Slot(m)
    ensures base <= m < base + 32 ==> k == m
  {
    k := base + (m - base) % 32;
  }

  // ---- The buffer ----

  /** A slot; `None` as payload is the null pointer. */
  datatype Entry = Entry(filled: bool, seqnum: nat, rtp: nat, ntp: nat, payload: Option<seq<byte>>)

  const EMPTY := Entry(false, 0, 0, 0, None)

  /** How many slots hold an allocated payload. */
  function Allocated(entries: seq<Entry>): nat {
    if |entries| == 0 then 0
    else Allocated(entries[..|entries| - 1]) + (if entries[|entries| - 1].payload.Some? then 1 else 0)
  }

  lemma {:induction false} AllocatedUpdate(entries: seq<Entry>, i: nat, e: Entry)
    requires i < |entries|
    ensures Allocated(entries[i := e]) == Allocated(entries)
              + (if e.payload.Some? then 1 else 0) - (if entries[i].payload.Some? then 1 else 0)
    decreases |entries|
  {
    var last := |entries| - 1;
    if i < last {
      AllocatedUpdate(entries[..last], i, e);
      assert entries[i := e][..last] == entries[..last][i := e];
    } else {
      assert entries[i := e][..last] == entries[..last];
    }
  }

  /** The AAC-ELD marker of packets without audio. */
  const MARKER: seq<byte> := [0x00, 0x68, 0x34, 0x00]

  predicate IsAudio(data: seq<byte>) {
    12 <= |data| <= 32768 && !(|data| == 16 && data[12..16] == MARKER)
  }

  /** Of the packets of a fitting length, all but those whose payload is the marker are audio. */
  lemma IsAudioExactly(data: seq<byte>)
    ensures IsAudio(data) <==> 12 <= |data| <= 0x8000 && data[12..] != [0x00, 0x68, 0x34, 0x00]
  {
    assert |data| == 16 ==> data[12..] == data[12..16];
  }

  /** What `dequeue` hands over. */
  datatype Delivered = Delivered(seqnum: nat, packet: Packet)

  /** Slot `e` holds what the window holds under `n`, and nothing else. */
  ghost predicate SlotOk(e: Entry, held: map<int, Packet>, n: int) {
    if n in held then e == Entry(true, Low16(n), held[n].rtp, held[n].ntp, Some(held[n].payload))
    else !e.filled && e.payload == None
  }

  class RaopBuffer {
    const ctx: AesCbc
    var isEmpty: bool
    var firstSeqnum: nat
    var lastSeqnum: nat
    const entries: array<Entry>

    ghost var w: Window        // the same buffer under unbounded numbers
    ghost var mallocs: nat     // payloads allocated so far,
    ghost var handedOver: nat  // of which so many were handed to the caller
    ghost var freed: nat       // and so many were freed

    ghost predicate Valid()
      reads this, entries, ctx
    {
      && entries.Length == 32 && ctx.chain == ctx.key.iv
      && Ok(w) && isEmpty == !w.started
      && firstSeqnum == Low16(w.base) && lastSeqnum == Low16(w.top)
      && (forall n :: w.base <= n < w.base + 32 ==> SlotOk(entries[Slot(n)], w.held, n))
      && mallocs == handedOver + freed + Allocated(entries[..])
    }

    constructor (key: CbcKey)
      ensures Valid() && ctx.key == key && w == NEW
      ensures fresh(ctx) && fresh(entries)
    {
      ctx := new AesCbc(key);
      entries := new Entry[32](_ => EMPTY);
      isEmpty, firstSeqnum, lastSeqnum := true, 0, 0;
      w, mallocs, handedOver, freed := Window(false, 0, 0, map[]), 0, 0, 0;
      new;
      NoneAllocated(entries[..]);
    }

    static lemma {:induction false} NoneAllocated(s: seq<Entry>)
      requires forall i :: 0 <= i < |s| ==> s[i].payload.None?
      ensures Allocated(s) == 0
      decreases |s|
    {
      if |s| > 0 {
        NoneAllocated(s[..|s| - 1]);
      }
    }

    /** Frees every payload. Inside the 16-bit range, `nextSeq` is where the buffer goes on; the
        ghost `next` is the unbounded number it stands for. */
    method Flush(nextSeq: int, ghost next: int)
      requires Valid()
      requires 0 <= nextSeq <= 0xffff ==> Low16(next) == nextSeq
      modifies this, entries
      ensures Valid()
      ensures w == Drop(old(w), if 0 <= nextSeq <= 0xffff then Some(next) else None)
      ensures mallocs == old(mallocs) && handedOver == old(handedOver)
      ensures forall i :: 0 <= i < 32 ==> !entries[i].filled && entries[i].payload == None
    {
      FreeAll();
      if nextSeq < 0 || nextSeq > 0xffff {
        isEmpty := true;
        w := Drop(w, None);
      } else {
        AddNumber(next, -1);
        firstSeqnum := nextSeq;
        lastSeqnum := (nextSeq - 1) % 0x1_0000;
        w := Drop(w, Some(next));
      }
    }

    method FreeAll()
      requires entries.Length == 32 && mallocs == handedOver + freed + Allocated(entries[..])
      modifies this`freed, entries
      ensures forall i :: 0 <= i < 32 ==> !entries[i].filled && entries[i].payload == None
      ensures mallocs == handedOver + freed + Allocated(entries[..])
    {
      var i := 0;
      while i < 32
        invariant 0 <= i <= 32
        invariant forall j :: 0 <= j < i ==> !entries[j].filled && entries[j].payload == None
        invariant mallocs == handedOver + freed + Allocated(entries[..])
      {
        ghost var was := entries[..];
        if entries[i].payload.Some? {
          entries[i] := entries[i].(payload := None);
          freed := freed + 1;
        }
        entries[i] := entries[i].(filled := false);
        assert entries[..] == was[i := entries[i]];
        AllocatedUpdate(was, i, entries[i]);
        i := i + 1;
      }
    }

    /** Decrypts the whole blocks of a packet's payload and copies the rest. */
    method DecryptPayload(data: array<byte>, payloadSize: nat) returns (output: array<byte>)
      requires ctx.chain == ctx.key.iv && 12 + payloadSize <= data.Length
      modifies ctx
      ensures ctx.chain == ctx.key.iv && fresh(output)
      ensures output[..] == Decode(ctx.key, data[12..12 + payloadSize])
    {
      var encryptedLen := payloadSize / 16 * 16;
      output := new byte[payloadSize](_ => 0);
      ctx.Decrypt(data, 12, output, encryptedLen);
      ctx.Reset();
      ghost var s := data[12..12 + payloadSize];
      assert s[..encryptedLen] == data[12..12 + encryptedLen];
      assert s[encryptedLen..] == data[12 + encryptedLen..12 + payloadSize];
      ghost var head := CbcDecrypt(ctx.key, ctx.key.iv, s[..encryptedLen]);
      assert output[..encryptedLen] == output[..][..encryptedLen] == head;
      Bytes.Copy(data, 12 + encryptedLen, output, encryptedLen, payloadSize - encryptedLen);
      assert output[..] == head + s[encryptedLen..];
    }

    /** Fills the free slot of number `n`, and moves the window's bounds. */
    method Store(seqnum: nat, slot: nat, rtp: nat, ntp: nat, payload: seq<byte>, ghost n: int)
      requires Valid() && seqnum == Low16(n) && slot == Slot(n)
      requires !entries[slot].filled && entries[slot].payload == None
      requires w.started ==> w.base <= n < w.base + 32 && n !in w.held
      modifies this, entries
      ensures Valid() && w == Put(old(w), n, Packet(payload, rtp, ntp)).0
      ensures mallocs == old(mallocs) + 1 && handedOver == old(handedOver)
    {
      hide Slot, Low16, SeqnumCmp;
      SlotsOfWindow(w.base);
      SlotsOfWindow(n);
      ghost var was, w0 := entries[..], w;
      var e := Entry(true, seqnum, rtp, ntp, Some(payload));
      AllocatedUpdate(entries[..], slot, e);
      if isEmpty {
        EmptySlots();
      }
      entries[slot] := e;
      assert entries[..] == was[slot := e];
      mallocs := mallocs + 1;
      if isEmpty {
        firstSeqnum, lastSeqnum, isEmpty := seqnum, seqnum, false;
      }
      SeqnumCmpIsDistance(n, if w.started then w.top else n);
      if SeqnumCmp(seqnum, lastSeqnum) > 0 {
        lastSeqnum := seqnum;
      }
      w := Put(w, n, Packet(payload, rtp, ntp)).0;
    }

    /** A buffer that is not started holds nothing. */
    lemma EmptySlots()
      requires Valid() && isEmpty
      ensures forall i :: 0 <= i < 32 ==> !entries[i].filled && entries[i].payload == None
    {
      forall i | 0 <= i < 32 ensures !entries[i].filled && entries[i].payload == None {
        var k := SameSlot(w.base, i);
        assert SlotOk(entries[Slot(k)], w.held, k) && Slot(i) == i;
      }
    }

    /** Takes a packet in: -1 for a bad length, 1 if it was stored, 0 if it was ignored. The ghost
        `n` is the packet's unbounded number, within half the 16-bit space of the first one. */
    method Enqueue(data: array<byte>, ntp: nat, rtp: nat, useSeqnum: bool, ghost n: int) returns (ret: int)
      requires Valid()
      requires useSeqnum && IsAudio(data[..]) ==> Low16(n) == FromBE(data[2..4])
      requires useSeqnum && !isEmpty ==> -0x8000 <= n - w.base < 0x8000
      requires !useSeqnum ==> n == w.base
      modifies this, entries, ctx
      ensures Valid()
      ensures ret == -1 <==> data.Length < 12 || data.Length > 32768
      ensures !IsAudio(data[..]) ==> ret <= 0 && w == old(w)
      ensures IsAudio(data[..]) ==>
                (w, ret == 1) == Put(old(w), n, Packet(Decode(ctx.key, data[12..]), rtp, ntp))
      ensures IsAudio(data[..]) && (old(isEmpty) || n >= old(w).base + 32) ==>
                ret == 1 && w == Window(true, n, n, map[n := Packet(Decode(ctx.key, data[12..]), rtp, ntp)])
      ensures mallocs == old(mallocs) + (if ret == 1 then 1 else 0) && handedOver == old(handedOver)
    {
      hide Decode, FromBE;
      if data.Length < 12 || data.Length > 32768 {
        return -1;
      }
      assert data.Length >= 16 ==> data[..][12..16] == data[12..16];
      if data.Length == 16 && data[12..16] == MARKER {
        return 0;
      }
      var payloadSize := data.Length - 12;
      Pow256Values();
      var seqnum := if useSeqnum then FromBE(data[2..4]) else firstSeqnum;
      ret := Place(seqnum, n);
      if ret == 0 {
        return;
      }
      var output := DecryptPayload(data, payloadSize);
      assert data[12..12 + payloadSize] == data[12..];
      Store(seqnum, seqnum % 32, rtp, ntp, output[..], n);
    }

    /** Finds out whether the packet is to be stored: 0 if it is late or a copy, 1 if its slot is
        free, after a flush if the window has to move. */
    method Place(seqnum: nat, ghost n: int) returns (ret: int)
      requires Valid() && seqnum == Low16(n) && (w.started ==> -0x8000 <= n - w.base < 0x8000)
      modifies this, entries
      ensures Valid() && mallocs == old(mallocs) && handedOver == old(handedOver)
      ensures ret == 0 || ret == 1
      ensures ret == 0 ==> w == old(w) && old(w).started && (n < w.base || n in w.held)
      ensures ret == 1 ==>
        && !entries[seqnum % 32].filled && entries[seqnum % 32].payload == None && seqnum % 32 == Slot(n)
        && (w.started ==> w.base <= n < w.base + 32 && n !in w.held)
        && forall p :: Put(w, n, p) == Put(old(w), n, p) && Put(w, n, p).1
    {
      hide Slot, Low16, SeqnumCmp;
      SlotOfNumber(n);
      AddNumber(w.base, 32);
      if !isEmpty {
        SeqnumCmpIsDistance(n, w.base);
      }
      if !isEmpty && SeqnumCmp(seqnum, firstSeqnum) < 0 {
        return 0;
      }
      if !isEmpty {
        SeqnumCmpIsDistance(n, w.base + 32);
      }
      if SeqnumCmp(seqnum, (firstSeqnum + 32) % 0x1_0000) >= 0 {
        Flush(seqnum, n);
      }
      ghost var k := SameSlot(w.base, n);
      assert SlotOk(entries[Slot(k)], w.held, k);
      if entries[seqnum % 32].filled && SeqnumCmp(entries[seqnum % 32].seqnum, seqnum) == 0 {
        return 0;
      }
      SeqnumCmpIsDistance(n, n);
      return 1;
    }

    /** Hands the first packet over, waits for it, or gives it up. */
    method Dequeue(noResend: bool) returns (result: Option<Delivered>)
      requires Valid()
      modifies this, entries
      ensures Valid() && w == Take(old(w), noResend).0
      ensures result == match Take(old(w), noResend).1
                        case None => None
                        case Some((n, p)) => Some(Delivered(Low16(n), p))
      ensures mallocs == old(mallocs) && handedOver == old(handedOver) + (if result.Some? then 1 else 0)
    {
      hide Slot, Low16, SeqnumCmp, Allocated;
      SeqnumCmpIsDistance(w.top, w.base);
      SlotOfNumber(w.base);
      AddNumber(w.base, 1);
      SlotsOfWindow(w.base);
      var entryCount := SeqnumCmp(lastSeqnum, firstSeqnum) + 1;
      if isEmpty || entryCount <= 0 {
        return None;
      }
      var slot := firstSeqnum % 32;
      assert SlotOk(entries[Slot(w.base)], w.held, w.base);
      if !noResend && !entries[slot].filled && entryCount < 32 {
        return None;
      }
      ghost var was := entries[..];
      firstSeqnum := (firstSeqnum + 1) % 0x1_0000;
      w := Take(w, noResend).0;
      if !entries[slot].filled {
        return None;
      }
      var entry := entries[slot];
      AllocatedUpdate(entries[..], slot, entry.(filled := false, payload := None));
      entries[slot] := entry.(filled := false, payload := None);
      assert entries[..] == was[slot := entries[slot]];
      handedOver := handedOver + 1;
      return Some(Delivered(entry.seqnum, Packet(entry.payload.value, entry.rtp, entry.ntp)));
    }

    /** The loop of the audio thread that hands over what can be handed over. */
    method DequeueAll(noResend: bool) returns (out: seq<Delivered>)
      requires Valid()
      modifies this, entries
      ensures Valid() && w == Drain(old(w), noResend).0
      ensures |out| == |Drain(old(w), noResend).1|
      ensures forall i :: 0 <= i < |out| ==>
                var (n, p) := Drain(old(w), noResend).1[i]; out[i] == Delivered(Low16(n), p)
      ensures mallocs == old(mallocs) && handedOver == old(handedOver) + |out|
    {
      hide Take, Ok, Allocated, Slot, Low16;
      out := [];
      ghost var goal, sofar := Drain(w, noResend), [];
      while true
        invariant Valid() && mallocs == old(mallocs) && handedOver == old(handedOver) + |out|
        invariant goal.0 == Drain(w, noResend).0 && goal.1 == sofar + Drain(w, noResend).1
        invariant |out| == |sofar|
        invariant forall i :: 0 <= i < |out| ==> out[i] == Delivered(Low16(sofar[i].0), sofar[i].1)
        decreases |w.held|
      {
        ghost var got := Take(w, noResend);
        var result := Dequeue(noResend);
        if result.None? {
          return;
        }
        out := out + [result.value];
        assert sofar + ([got.1.value] + Drain(w, noResend).1) == sofar + [got.1.value] + Drain(w, noResend).1;
        sofar := sofar + [got.1.value];
      }
    }

    /** The resend request the buffer makes, if it makes one: the first number and the count. */
    method HandleResends() returns (request: Option<(nat, nat)>)
      requires Valid()
      ensures match request
        case None => forall c: nat :: !Asks(w, c)
        case Some((first, count)) => first == Low16(w.base) && Asks(w, count)
    {
      hide Slot, Low16, SeqnumCmp;
      SeqnumCmpIsDistance(w.base, w.top);
      if SeqnumCmp(firstSeqnum, lastSeqnum) >= 0 {
        return None;
      }
      var seqnum := firstSeqnum;
      ghost var n := w.base;
      LoopNumber(w.base, n);
      while SeqnumCmp(seqnum % 0x1_0000, lastSeqnum) < 0
        invariant w.base <= n <= w.top && seqnum == firstSeqnum + (n - w.base)
        invariant forall m :: w.base <= m < n ==> m !in w.held
        invariant seqnum % 0x1_0000 == Low16(n) && seqnum % 32 == Slot(n)
        invariant SeqnumCmp(Low16(n), lastSeqnum) == n - w.top
        decreases w.top - n
      {
        assert SlotOk(entries[Slot(n)], w.held, n);
        if entries[seqnum % 32].filled {
          break;
        }
        seqnum := seqnum + 1;
        n := n + 1;
        LoopNumber(w.base, n);
        SeqnumCmpIsDistance(n, w.top);
      }
      SeqnumCmpIsDistance(n, w.base);
      var count := SeqnumCmp(seqnum % 0x1_0000, firstSeqnum);
      if count == 0 {
        return None;
      }
      return Some((firstSeqnum, count));
    }

    /** The loop counts in an `int`, beyond 16 bits, and still meets the right number and slot. */
    static lemma LoopNumber(base: int, n: int)
      requires base <= n
      ensures (Low16(base) + (n - base)) % 0x1_0000 == Low16(n)
      ensures (Low16(base) + (n - base)) % 32 == Slot(n)
    {
      var k := base / 0x1_0000;
      assert Low16(base) + (n - base) == n - 0x1_0000 * k == n - 32 * (2048 * k);
      Shifted16(n, k);
      ShiftedSlot(n, 2048 * k);
    }
  }
}
