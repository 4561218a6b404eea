/** AES in counter mode as one endless keystream (crypto.c), and the mirror buffer that
    carries an unused part of a keystream block from one packet to the next (mirror_buffer.c). */
module MirrorBuffers {
  import opened Bytes
  import opened Seqs

  /** The keystream of one key and counter: byte `k` encrypts byte `k` of the stream. */
  type Keystream = nat -> byte

  /** `s` exclusive-ored with the keystream from position `pos` on. */
  function XorStream(ks: Keystream, pos: nat, s: seq<byte>): (r: seq<byte>)
    ensures |r| == |s|
    ensures forall i :: 0 <= i < |s| ==> r[i] == Xor(s[i], ks(pos + i))
  {
    seq(|s|, i requires 0 <= i < |s| => Xor(s[i], ks(pos + i)))
  }

  /** Bit by bit: the bits of the result are those in which byte and keystream differ. */
  lemma XorStreamBits(ks: Keystream, pos: nat, s: seq<byte>)
    ensures forall j :: 0 <= j < |s| ==> DifferingBits(XorStream(ks, pos, s)[j], s[j], ks(pos + j))
  {
    forall j | 0 <= j < |s| ensures DifferingBits(XorStream(ks, pos, s)[j], s[j], ks(pos + j)) {
      XorAt(s[j], ks(pos + j));
    }
  }

  lemma XorStreamAppend(ks: Keystream, pos: nat, a: seq<byte>, b: seq<byte>)
    ensures XorStream(ks, pos, a + b) == XorStream(ks, pos, a) + XorStream(ks, pos + |a|, b)
  {
  }

  /** A packet `s[..n]` decrypted into place up to `m` and then up to `n`. */
  lemma SpliceParts(ks: Keystream, pos: nat, s: seq<byte>, m: nat, n: nat, before: seq<byte>, at: nat)
    requires m <= n <= |s| && at + n <= |before|
    ensures Splice(Splice(before, at, XorStream(ks, pos, s[..m])), at + m, XorStream(ks, pos + m, s[m..n]))
         == Splice(before, at, XorStream(ks, pos, s[..n]))
  {
    hide Splice, XorStream;
    SpliceTwice(before, at, XorStream(ks, pos, s[..m]), XorStream(ks, pos + m, s[m..n]));
    XorStreamAppend(ks, pos, s[..m], s[m..n]);
    assert s[..m] + s[m..n] == s[..n];
  }

  /** Zero bytes after a packet decrypt to the keystream bytes that come after it. */
  lemma ZerosGiveKeystream(ks: Keystream, pos: nat, padded: seq<byte>, n: nat)
    requires n <= |padded| && forall j :: n <= j < |padded| ==> padded[j] == 0
    ensures XorStream(ks, pos, padded)[..n] == XorStream(ks, pos, padded[..n])
    ensures forall j :: n <= j < |padded| ==> XorStream(ks, pos, padded)[j] == ks(pos + j)
  {
    forall j | n <= j < |padded| ensures XorStream(ks, pos, padded)[j] == ks(pos + j) {
      XorTwice(0, ks(pos + j));
    }
  }

  /** Encrypting and decrypting are the same operation, and each undoes the other. */
  lemma XorStreamTwice(ks: Keystream, pos: nat, s: seq<byte>)
    ensures XorStream(ks, pos, XorStream(ks, pos, s)) == s
  {
    forall i | 0 <= i < |s| ensures XorStream(ks, pos, XorStream(ks, pos, s))[i] == s[i] {
      XorTwice(s[i], ks(pos + i));
    }
  }

  /** A stream decrypted packet by packet, each with the keystream bytes that are next. */
  function DecryptPackets(ks: Keystream, pos: nat, packets: seq<seq<byte>>): seq<seq<byte>>
    decreases |packets|
  {
    if |packets| == 0 then []
    else [XorStream(ks, pos, packets[0])] + DecryptPackets(ks, pos + |packets[0]|, packets[1..])
  }

  /** The cut into packets does not show in the plaintext. */
  lemma {:induction false} CutsDoNotShow(ks: Keystream, pos: nat, packets: seq<seq<byte>>)
    ensures Flatten(DecryptPackets(ks, pos, packets)) == XorStream(ks, pos, Flatten(packets))
    decreases |packets|
  {
    if |packets| > 0 {
      CutsDoNotShow(ks, pos + |packets[0]|, packets[1..]);
      XorStreamAppend(ks, pos, packets[0], Flatten(packets[1..]));
      assert DecryptPackets(ks, pos, packets)[1..] == DecryptPackets(ks, pos + |packets[0]|, packets[1..]);
    }
  }

  /** The cipher context: how many keystream bytes it has handed out, and the offset that
      `start_fresh_block` goes by. */
  class AesCtr {
    const ks: Keystream
    var position: nat
    var blockOffset: nat
    const waste: array<byte>

    ghost predicate Valid()
      reads this
    {
      waste.Length == 16 && blockOffset < 16
    }

    constructor (ks: Keystream)
      ensures Valid() && this.ks == ks && position == 0 && blockOffset == 0
      ensures fresh(waste)
    {
      this.ks := ks;
      position, blockOffset := 0, 0;
      waste := new byte[16](_ => 0);
    }

    /** `EVP_EncryptUpdate` on `len` bytes of `data` from `start`, in place. */
    method Encrypt(data: array<byte>, start: nat, len: nat)
      requires start + len <= data.Length
      modifies this`position, data
      ensures position == old(position) + len
      ensures data[..] == Splice(old(data[..]), start, XorStream(ks, old(position), old(data[start..start + len])))
    {
      ghost var plain := XorStream(ks, position, data[start..start + len]);
      var i := 0;
      while i < len
        modifies data
        invariant 0 <= i <= len
        invariant forall j :: start <= j < start + i ==> data[j] == plain[j - start]
        invariant forall j :: 0 <= j < start || start + i <= j < data.Length ==> data[j] == old(data[j])
      {
        data[start + i] := Xor(data[start + i], ks(position + i));
        i := i + 1;
      }
      assert data[..] == Splice(old(data[..]), start, plain);
      position := position + len;
    }

    method CtrEncrypt(data: array<byte>, start: nat, len: nat)
      requires Valid()
      requires start + len <= data.Length
      modifies this, data
      ensures Valid()
      ensures position == old(position) + len
      ensures blockOffset == (old(blockOffset) + len) % 16
      ensures data[..] == Splice(old(data[..]), start, XorStream(ks, old(position), old(data[start..start + len])))
    {
      Encrypt(data, start, len);
      blockOffset := (blockOffset + len) % 16;
    }

    method CtrDecrypt(data: array<byte>, start: nat, len: nat)
      requires start + len <= data.Length
      modifies this`position, data
      ensures position == old(position) + len
      ensures data[..] == Splice(old(data[..]), start, XorStream(ks, old(position), old(data[start..start + len])))
    {
      Encrypt(data, start, len);
    }

    /** Burns the rest of a begun block, by the count `blockOffset` has kept. */
    method StartFreshBlock()
      requires Valid()
      modifies this, waste
      ensures Valid() && blockOffset == 0
      ensures position == old(position) + (16 - old(blockOffset)) % 16
    {
      if blockOffset == 0 {
        return;
      }
      CtrEncrypt(waste, 0, 16 - blockOffset);
    }
  }

  /** How many keystream bytes of a begun block are left after `used` bytes. */
  function Carry(used: nat): nat {
    (16 - used % 16) % 16
  }

  class MirrorBuffer {
    const ctx: AesCtr
    var nextDecryptCount: nat
    const og: array<byte>
    ghost var blocks: nat  // whole keystream blocks taken from the cipher so far

    /** The carried bytes are the next keystream bytes that no packet has used, and the cipher
        stands at the start of a block. */
    ghost predicate Valid()
      reads this, ctx, og
    {
      && ctx.Valid() && og.Length == 16 && og != ctx.waste
      && ctx.blockOffset == 0 && ctx.position == 16 * blocks
      && nextDecryptCount < 16 && (nextDecryptCount > 0 ==> blocks > 0)
      && Carries(nextDecryptCount)
    }

    ghost predicate Carries(n: nat)
      requires og.Length == 16
      reads ctx, og
    {
      n <= 16 && (n > 0 ==> 16 <= ctx.position) && forall j :: 16 - n <= j < 16 ==> og[j] == ctx.ks(ctx.position - 16 + j)
    }

    /** How many bytes of the stream have been decrypted so far. */
    ghost function Consumed(): nat
      requires Valid()
      reads this, ctx, og
    {
      ctx.position - nextDecryptCount
    }

    lemma CarryCount()
      requires Valid()
      ensures nextDecryptCount == Carry(Consumed())
    {
      assert Consumed() % 16 == (16 * blocks - nextDecryptCount) % 16;
    }

    constructor (ks: Keystream)
      ensures Valid() && ctx.ks == ks && Consumed() == 0 && nextDecryptCount == 0
      ensures fresh(ctx) && fresh(og) && fresh(ctx.waste)
    {
      ctx := new AesCtr(ks);
      og := new byte[16](_ => 0);
      nextDecryptCount := 0;
      blocks := 0;
    }

    ghost predicate Separate(input: array<byte>, output: array<byte>)
    {
      input != output && input != og && output != og && input != ctx.waste && output != ctx.waste
    }

    /** From `start` on, the input still holds the packet `cipher` as it came. */
    ghost predicate Holds(input: array<byte>, cipher: seq<byte>, start: nat)
      reads input
    {
      |cipher| <= input.Length && forall j :: start <= j < |cipher| ==> input[j] == cipher[j]
    }

    /** Decrypts one packet. The input is overwritten on the way, as in the source. */
    method Decrypt(input: array<byte>, output: array<byte>, at: nat, inputLen: nat)
      requires Valid() && Separate(input, output)
      requires inputLen <= input.Length && at + inputLen <= output.Length
      requires nextDecryptCount <= inputLen
      modifies this, ctx, ctx.waste, og, input, output
      ensures Valid()
      ensures Consumed() == old(Consumed()) + inputLen
      ensures output[..] == Splice(old(output[..]), at, XorStream(ctx.ks, old(Consumed()), old(input[..inputLen])))
      ensures forall j :: 0 <= j < inputLen ==> DifferingBits(output[at + j], old(input[j]), ctx.ks(old(Consumed()) + j))
    {
      hide Splice, XorStream, DifferingBits;
      ghost var cipher := input[..inputLen];
      XorStreamBits(ctx.ks, Consumed(), cipher);
      SpliceAt(output[..], at, XorStream(ctx.ks, Consumed(), cipher));
      var whole, restLen := Blocks(inputLen - nextDecryptCount);
      var restStart := inputLen - restLen;
      SpliceParts(ctx.ks, Consumed(), cipher, restStart, inputLen, output[..], at);
      DecryptHead(input, output, at, restStart, whole, cipher);
      DecryptRest(input, output, at + restStart, restStart, restLen, cipher);
      assert cipher[..inputLen] == cipher;
    }

    static method Blocks(n: nat) returns (whole: nat, rest: nat)
      ensures n == 16 * whole + rest && rest < 16
    {
      whole, rest := n / 16, n % 16;
    }

    /** The carried head and the whole blocks: everything before `restStart`. */
    method DecryptHead(input: array<byte>, output: array<byte>, at: nat, restStart: nat, whole: nat,
                       ghost cipher: seq<byte>)
      requires Valid() && Separate(input, output) && Holds(input, cipher, 0)
      requires restStart == nextDecryptCount + 16 * whole
      requires restStart <= |cipher| && at + restStart <= output.Length
      modifies this, ctx, ctx.waste, input, output
      ensures Valid() && nextDecryptCount == 0 && ctx.position == old(Consumed()) + restStart
      ensures output[..] == Splice(old(output[..]), at, XorStream(ctx.ks, old(Consumed()), cipher[..restStart]))
      ensures Holds(input, cipher, restStart)
    {
      hide Splice, XorStream;
      var carried := nextDecryptCount;
      SpliceParts(ctx.ks, Consumed(), cipher, carried, restStart, output[..], at);
      XorCarried(input, output, at, cipher);
      ctx.StartFreshBlock();
      DecryptBlocks(input, output, at + carried, carried, 16 * whole, cipher);
      nextDecryptCount, blocks := 0, blocks + whole;
    }

    /** The head of a packet, decrypted with the keystream bytes carried over. */
    method XorCarried(input: array<byte>, output: array<byte>, at: nat, ghost cipher: seq<byte>)
      requires Valid() && Holds(input, cipher, 0)
      requires nextDecryptCount <= |cipher| && at + nextDecryptCount <= output.Length
      requires input != output && output != og
      modifies output
      ensures output[..] == Splice(old(output[..]), at, XorStream(ctx.ks, Consumed(), cipher[..nextDecryptCount]))
    {
      ghost var plain := XorStream(ctx.ks, Consumed(), cipher[..nextDecryptCount]);
      assert forall j :: 0 <= j < nextDecryptCount ==> plain[j] == Xor(input[j], og[16 - nextDecryptCount + j]);
      XorInto(input, output, at, plain);
    }

    method XorInto(input: array<byte>, output: array<byte>, at: nat, ghost plain: seq<byte>)
      requires og.Length == 16 && nextDecryptCount < 16 && output != og && output != input
      requires |plain| == nextDecryptCount <= input.Length && at + nextDecryptCount <= output.Length
      requires forall j :: 0 <= j < nextDecryptCount ==> plain[j] == Xor(input[j], og[16 - nextDecryptCount + j])
      modifies output
      ensures output[..] == Splice(old(output[..]), at, plain)
    {
      var i := 0;
      while i < nextDecryptCount
        invariant 0 <= i <= nextDecryptCount
        invariant forall j :: at <= j < at + i ==> output[j] == plain[j - at]
        invariant forall j :: 0 <= j < at || at + i <= j < output.Length ==> output[j] == old(output[j])
      {
        output[at + i] := Xor(input[i], og[16 - nextDecryptCount + i]);
        i := i + 1;
      }
      assert output[..] == Splice(old(output[..]), at, plain);
    }

    /** The whole blocks of a packet: decrypted in the input, then copied out. */
    method DecryptBlocks(input: array<byte>, output: array<byte>, outAt: nat, start: nat, len: nat, ghost cipher: seq<byte>)
      requires Holds(input, cipher, start) && start + len <= |cipher| && outAt + len <= output.Length && input != output
      modifies ctx`position, input, output
      ensures ctx.position == old(ctx.position) + len
      ensures output[..] == Splice(old(output[..]), outAt, XorStream(ctx.ks, old(ctx.position), cipher[start..start + len]))
      ensures Holds(input, cipher, start + len)
    {
      assert input[start..start + len] == cipher[start..start + len];
      ctx.CtrDecrypt(input, start, len);
      assert input[start..start + len] == input[..][start..start + len];
      assert forall j :: start + len <= j < |cipher| ==> input[..][j] == cipher[j];
      Bytes.Copy(input, start, output, outAt, len);
    }

    /** The last partial block, padded with zeros and decrypted in the carry buffer: its first
        bytes are the plaintext, the others the keystream the next packet starts with. */
    method DecryptRest(input: array<byte>, output: array<byte>, outAt: nat, restStart: nat, restLen: nat, ghost cipher: seq<byte>)
      requires Valid() && nextDecryptCount == 0 && Holds(input, cipher, restStart)
      requires restLen < 16 && restStart + restLen <= |cipher| && outAt + restLen <= output.Length
      requires input != og && output != og && input != output
      modifies this, ctx`position, og, output
      ensures Valid() && nextDecryptCount == (if restLen == 0 then 0 else 16 - restLen) && Consumed() == old(ctx.position) + restLen
      ensures output[..] == Splice(old(output[..]), outAt, XorStream(ctx.ks, old(ctx.position), cipher[restStart..restStart + restLen]))
    {
      hide Splice, XorStream;
      if restLen > 0 {
        PadBlock(input, restStart, restLen);
        assert og[..restLen] == cipher[restStart..restStart + restLen];
        DecryptBlock(restLen);
        Bytes.Copy(og, 0, output, outAt, restLen);
        nextDecryptCount, blocks := 16 - restLen, blocks + 1;
      } else {
        SpliceNothing(output[..], outAt, XorStream(ctx.ks, ctx.position, cipher[restStart..restStart + restLen]));
      }
    }

    method PadBlock(input: array<byte>, restStart: nat, restLen: nat)
      requires og.Length == 16 && input != og
      requires restLen < 16 && restStart + restLen <= input.Length
      modifies og
      ensures og[..restLen] == input[restStart..restStart + restLen]
      ensures forall j :: restLen <= j < 16 ==> og[j] == 0
    {
      var i := 0;
      while i < 16
        invariant 0 <= i <= 16
        invariant forall j :: 0 <= j < i ==> og[j] == 0
      {
        og[i] := 0;
        i := i + 1;
      }
      Bytes.Copy(input, restStart, og, 0, restLen);
    }

    method DecryptBlock(restLen: nat)
      requires ctx.Valid() && og.Length == 16 && restLen < 16
      requires forall j :: restLen <= j < 16 ==> og[j] == 0
      modifies ctx`position, og
      ensures ctx.position == old(ctx.position) + 16
      ensures og[0..restLen] == XorStream(ctx.ks, old(ctx.position), old(og[..restLen]))
      ensures Carries(16 - restLen)
    {
      hide Splice, XorStream;
      ghost var padded, start := og[..], ctx.position;
      ctx.CtrDecrypt(og, 0, 16);
      assert padded[0..16] == padded;
      ZerosGiveKeystream(ctx.ks, start, padded, restLen);
      SpliceWhole(padded, XorStream(ctx.ks, start, padded));
      assert padded[..restLen] == old(og[..restLen]);
      assert og[0..restLen] == og[..][..restLen];
      assert forall j :: restLen <= j < 16 ==> og[..][j] == ctx.ks(start + j);
    }
  }

  /** How many bytes come before packet `i`. */
  function Before(packets: seq<seq<byte>>, i: nat): nat
    requires i <= |packets|
  {
    |Flatten(packets[..i])|
  }

  lemma FlattenSnoc(packets: seq<seq<byte>>, i: nat)
    requires i < |packets|
    ensures Flatten(packets[..i + 1]) == Flatten(packets[..i]) + packets[i]
  {
    assert packets[..i + 1] == packets[..i] + [packets[i]];
    FlattenOne(packets[..i], packets[i]);
  }

  lemma {:induction false} FlattenOne(packets: seq<seq<byte>>, p: seq<byte>)
    ensures Flatten(packets + [p]) == Flatten(packets) + p
    decreases |packets|
  {
    if |packets| == 0 {
      assert packets + [p] == [p] && [p][1..] == [];
    } else {
      assert (packets + [p])[1..] == packets[1..] + [p];
      FlattenOne(packets[1..], p);
    }
  }

  /** The same for the buffer itself: a ciphertext split into packets, each at least as long as the
      remainder carried into it, comes out as if it had been decrypted at once. */
  method DecryptSplit(ks: Keystream, packets: seq<seq<byte>>) returns (plain: seq<byte>)
    requires forall i :: 0 <= i < |packets| ==> Carry(Before(packets, i)) <= |packets[i]|
    ensures plain == XorStream(ks, 0, Flatten(packets))
    ensures forall j :: 0 <= j < |plain| ==> DifferingBits(plain[j], Flatten(packets)[j], ks(j))
  {
    hide XorStream, Splice, Carry, Flatten;
    var buffer := new MirrorBuffer(ks);
    plain := [];
    var i := 0;
    NothingYet(ks, packets);
    while i < |packets|
      invariant 0 <= i <= |packets| && fresh(buffer) && fresh(buffer.ctx) && fresh(buffer.ctx.waste) && fresh(buffer.og)
      invariant buffer.Valid() && buffer.ctx.ks == ks && buffer.Consumed() == Before(packets, i)
      invariant plain == XorStream(ks, 0, Flatten(packets[..i]))
    {
      buffer.CarryCount();
      var piece := DecryptOne(buffer, packets[i]);
      FlattenSnoc(packets, i);
      XorStreamAppend(ks, 0, Flatten(packets[..i]), packets[i]);
      plain := plain + piece;
      i := i + 1;
    }
    assert packets[..i] == packets;
    XorStreamBits(ks, 0, Flatten(packets));
  }

  lemma NothingYet(ks: Keystream, packets: seq<seq<byte>>)
    ensures Before(packets, 0) == 0 && XorStream(ks, 0, Flatten(packets[..0])) == []
  {
  }

  method DecryptOne(buffer: MirrorBuffer, packet: seq<byte>) returns (plain: seq<byte>)
    requires buffer.Valid() && buffer.nextDecryptCount <= |packet|
    modifies buffer, buffer.ctx, buffer.ctx.waste, buffer.og
    ensures buffer.Valid() && buffer.Consumed() == old(buffer.Consumed()) + |packet|
    ensures plain == XorStream(buffer.ctx.ks, old(buffer.Consumed()), packet)
  {
    hide XorStream;
    var input := new byte[|packet|](i requires 0 <= i < |packet| => packet[i]);
    var output := new byte[|packet|](_ => 0);
    assert input[..|packet|] == packet;
    SpliceWhole(output[..], XorStream(buffer.ctx.ks, buffer.Consumed(), packet));
    buffer.Decrypt(input, output, 0, |packet|);
    plain := output[..];
  }
}
