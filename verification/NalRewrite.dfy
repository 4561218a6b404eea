/** The in-place rewrite of length-prefixed NAL units into an Annex B byte stream
    (raop_rtp_mirror.c, the loop after decryption). */
module NalRewrite {
  import opened Bytes
  import opened Seqs

  const START_CODE: seq<byte> := [0, 0, 0, 1]

  /** How the loop ended. `SizeOverflow` stands for the signed addition that C leaves undefined. */
  datatype Outcome = Complete(end: nat) | BadLength | ForbiddenBit | H265 | SizeOverflow

  datatype Scan = Scan(mem: seq<byte>, outcome: Outcome, count: nat)

  /** The length field at `pos`, as the C `int` it is read into. */
  function LengthAt(mem: seq<byte>, pos: nat): int
    requires pos + 4 <= |mem|
  {
    Pow256Values();
    AsInt32(FromBE(mem[pos..pos + 4]))
  }

  /** The two leading bytes by which a macOS client's H.265 units are recognised; once one was
      seen, the second byte alone is enough. */
  predicate IsH265(first: byte, second: byte, seen: bool) {
    second == 1 && (first == 0x28 || first == 0x02 || seen)
  }

  /** The loop over the payload `mem[base..base + size]`, from `pos` on. The two bytes after the
      payload are there because the loop looks at the bytes after a prefix without a check. */
  function ScanFrom(mem: seq<byte>, base: nat, size: nat, pos: nat, count: nat, seen: bool): (r: Scan)
    requires base <= pos && base + size + 2 <= |mem|
    ensures |r.mem| == |mem|
    ensures r.count >= count
    decreases base + size - pos
  {
    if pos >= base + size then Scan(mem, Complete(pos), count)
    else if pos + 4 > base + size || LengthAt(mem, pos) < 0 then Scan(mem, BadLength, count)
    else
      var mem' := Splice(mem, pos, START_CODE);
      if mem[pos + 4] >= 0x80 then Scan(mem', ForbiddenBit, count + 1)
      else if IsH265(mem[pos + 4], mem[pos + 5], seen) then Scan(mem', H265, count + 1)
      else if pos + 4 - base + LengthAt(mem, pos) >= 0x8000_0000 then Scan(mem', SizeOverflow, count + 1)
      else ScanFrom(mem', base, size, pos + 4 + LengthAt(mem, pos), count + 1, seen)
  }

  /** The loop itself. `valid` is the source's `valid_data` after the check of the final size. */
  method Rewrite(buf: array<byte>, base: nat, size: nat, seen: bool)
    returns (valid: bool, count: nat, detected: bool, overflow: bool)
    requires base + size + 2 <= buf.Length
    modifies buf
    ensures var r := ScanFrom(old(buf[..]), base, size, base, 0, seen);
      && buf[..] == r.mem && count == r.count
      && valid == (r.outcome == Complete(base + size))
      && detected == (seen || r.outcome == H265)
      && overflow == (r.outcome == SizeOverflow)
    ensures size == 0 ==> valid
  {
    hide ScanFrom, Splice, FromBE;
    valid, detected, overflow := true, seen, false;
    var naluSize := 0;
    count := 0;
    ghost var goal := ScanFrom(buf[..], base, size, base, 0, seen);
    while naluSize < size
      invariant goal == ScanFrom(buf[..], base, size, base + naluSize, count, seen)
      invariant size == 0 ==> naluSize == 0
      decreases size - naluSize
    {
      ScanOnce(buf[..], base, size, base + naluSize, count, seen);
      // A length that lies partly outside is never used, so it is not read here.
      if naluSize + 4 > size {
        valid := false;
        return;
      }
      var ncLen := ReadLength(buf, base + naluSize);
      if ncLen < 0 {
        valid := false;
        return;
      }
      PutStartCode(buf, base + naluSize);
      naluSize := naluSize + 4;
      count := count + 1;
      if buf[base + naluSize] >= 0x80 {
        valid := false;
        return;
      }
      if IsH265(buf[base + naluSize], buf[base + naluSize + 1], seen) {
        valid, detected := false, true;
        return;
      }
      if naluSize + ncLen >= 0x8000_0000 {
        valid, overflow := false, true;
        return;
      }
      naluSize := naluSize + ncLen;
    }
    ScanOnce(buf[..], base, size, base + naluSize, count, seen);
    valid := naluSize == size;
  }

  /** One turn of the loop. */
  lemma ScanOnce(mem: seq<byte>, base: nat, size: nat, pos: nat, count: nat, seen: bool)
    requires base <= pos && base + size + 2 <= |mem|
    ensures ScanFrom(mem, base, size, pos, count, seen) ==
      if pos >= base + size then Scan(mem, Complete(pos), count)
      else if pos + 4 > base + size || LengthAt(mem, pos) < 0 then Scan(mem, BadLength, count)
      else
        var mem' := Splice(mem, pos, START_CODE);
        if mem[pos + 4] >= 0x80 then Scan(mem', ForbiddenBit, count + 1)
        else if IsH265(mem[pos + 4], mem[pos + 5], seen) then Scan(mem', H265, count + 1)
        else if pos + 4 - base + LengthAt(mem, pos) >= 0x8000_0000 then Scan(mem', SizeOverflow, count + 1)
        else ScanFrom(mem', base, size, pos + 4 + LengthAt(mem, pos), count + 1, seen)
  {
  }

  method ReadLength(buf: array<byte>, at: nat) returns (length: int)
    requires at + 4 <= buf.Length
    ensures length == LengthAt(buf[..], at)
  {
    Pow256Values();
    assert buf[..][at..at + 4] == buf[at..at + 4];
    length := AsInt32(FromBE(buf[at..at + 4]));
  }

  method PutStartCode(buf: array<byte>, at: nat)
    requires at + 4 <= buf.Length
    modifies buf
    ensures buf[..] == Splice(old(buf[..]), at, START_CODE)
    ensures forall j :: at + 4 <= j < buf.Length ==> buf[j] == old(buf[j])
  {
    buf[at], buf[at + 1], buf[at + 2], buf[at + 3] := 0, 0, 0, 1;
  }

  /** What a sender puts before encryption: each unit behind its four-byte length. */
  function LengthPrefixed(nals: seq<seq<byte>>): seq<byte> {
    if |nals| == 0 then [] else ToBE(|nals[0]|, 4) + nals[0] + LengthPrefixed(nals[1..])
  }

  /** What the decoder wants: each unit behind a start code. */
  function AnnexB(nals: seq<seq<byte>>): (s: seq<byte>)
    ensures |s| == |LengthPrefixed(nals)|
  {
    if |nals| == 0 then [] else START_CODE + nals[0] + AnnexB(nals[1..])
  }

  /** A unit of at least two bytes that the loop lets pass. */
  predicate IsH264(nal: seq<byte>)
    requires |nal| >= 2
  {
    nal[0] < 0x80 && !IsH265(nal[0], nal[1], false)
  }

  /** The fields of a two-byte H.265 unit header (section 7.3.1.2 of ITU-T H.265). */
  function H265Type(first: byte, second: byte): nat {
    first / 2 % 64
  }

  /** The two leading bytes are exactly those of units of type 1 or 20, in the base layer and the
      lowest temporal one. Once H.265 was seen, every unit with that second byte counts. */
  lemma IsH265Exactly(first: byte, second: byte)
    ensures IsH265(first, second, false) <==>
      && first < 0x80 && (H265Type(first, second) == 1 || H265Type(first, second) == 20)
      && first % 2 * 32 + second / 8 == 0 && second % 8 == 1
    ensures IsH265(first, second, true) <==> second == 1
  {
  }

  // ---- Reading a start-code stream back ----

  /** A start code stands at the head. */
  predicate AtStartCode(s: seq<byte>) {
    |s| >= 4 && s[0] == 0 && s[1] == 0 && s[2] == 0 && s[3] == 1
  }

  /** The distance to the next start code, or to the end. */
  function NextStartCode(s: seq<byte>): (n: nat)
    ensures n <= |s|
  {
    if s == [] || AtStartCode(s) then 0 else 1 + NextStartCode(s[1..])
  }

  /** The units between the start codes (annex B of ITU-T H.264). */
  function SplitUnits(s: seq<byte>): seq<seq<byte>>
    decreases |s|
  {
    if !AtStartCode(s) then []
    else
      var n := NextStartCode(s[4..]);
      [s[4..4 + n]] + SplitUnits(s[4 + n..])
  }

  /** What an encoder guarantees of a unit: no three zero bytes in a row, and none at the end
      (section 7.4.1 of ITU-T H.264). */
  predicate IsClean(nal: seq<byte>) {
    && |nal| > 0 && nal[|nal| - 1] != 0
    && forall i :: 0 <= i < |nal| - 2 ==> nal[i] != 0 || nal[i + 1] != 0 || nal[i + 2] != 0
  }

  lemma {:induction false} NextAfter(nal: seq<byte>, rest: seq<byte>)
    requires IsClean(nal) && (rest == [] || AtStartCode(rest))
    ensures NextStartCode(nal + rest) == |nal|
    decreases |nal|
  {
    var s := nal + rest;
    assert !AtStartCode(s);
    assert s[1..] == nal[1..] + rest;
    if |nal| > 1 {
      assert forall i :: 0 <= i < |nal[1..]| ==> nal[1..][i] == nal[i + 1];
      NextAfter(nal[1..], rest);
    } else {
      assert nal[1..] + rest == rest;
    }
  }

  /** A decoder that looks for start codes finds exactly the units that were sent. */
  lemma {:induction false} UnitsComeBack(nals: seq<seq<byte>>)
    requires forall i :: 0 <= i < |nals| ==> IsClean(nals[i])
    ensures SplitUnits(AnnexB(nals)) == nals
    decreases |nals|
  {
    hide IsClean, SplitUnits;
    NothingToSplit();
    if |nals| > 0 {
      UnitsComeBack(nals[1..]);
      RestStarts(nals[1..]);
      SplitOnce(nals[0], AnnexB(nals[1..]));
    }
  }

  lemma NothingToSplit()
    ensures SplitUnits([]) == []
  {
  }

  lemma SplitOnce(nal: seq<byte>, rest: seq<byte>)
    requires IsClean(nal) && (rest == [] || AtStartCode(rest))
    ensures SplitUnits(START_CODE + nal + rest) == [nal] + SplitUnits(rest)
  {
    hide IsClean, NextStartCode, SplitUnits;
    NextAfter(nal, rest);
    SplitAtHead(nal + rest);
    TwoParts(nal, rest);
    Associate(START_CODE, nal, rest);
  }

  lemma SplitAtHead(s: seq<byte>)
    ensures var n := NextStartCode(s); SplitUnits(START_CODE + s) == [s[..n]] + SplitUnits(s[n..])
  {
    var t, n := START_CODE + s, NextStartCode(s);
    hide NextStartCode;
    assert t[4..] == s && t[4..4 + n] == s[..n] && t[4 + n..] == s[n..];
  }

  lemma RestStarts(nals: seq<seq<byte>>)
    ensures AnnexB(nals) == [] || AtStartCode(AnnexB(nals))
  {
  }

  lemma FirstUnit(nals: seq<seq<byte>>)
    requires |nals| > 0
    ensures LengthPrefixed(nals) == ToBE(|nals[0]|, 4) + nals[0] + LengthPrefixed(nals[1..])
    ensures AnnexB(nals) == START_CODE + nals[0] + AnnexB(nals[1..])
  {
  }

  /** One unit in front of others in memory, before and after its length is replaced. */
  lemma UnitAt(pre: seq<byte>, nals: seq<seq<byte>>, post: seq<byte>)
    requires |nals| > 0 && |nals[0]| >= 2
    ensures var mem, pos, pre' := pre + LengthPrefixed(nals) + post, |pre|, pre + START_CODE + nals[0];
      && mem[pos..pos + 4] == ToBE(|nals[0]|, 4)
      && mem[pos + 4] == nals[0][0] && mem[pos + 5] == nals[0][1]
      && Splice(mem, pos, START_CODE) == pre' + LengthPrefixed(nals[1..]) + post
      && pre' + AnnexB(nals[1..]) + post == pre + AnnexB(nals) + post
  {
    assert |START_CODE| == 4;
    hide *;
    FirstUnit(nals);
    var nal, len, lp, ab := nals[0], ToBE(|nals[0]|, 4), LengthPrefixed(nals[1..]), AnnexB(nals[1..]);
    Regroup(pre, len, nal, lp, post);
    Middle(pre, len, nal + lp + post);
    SpliceOver(pre, len, nal + lp + post, START_CODE);
    Regroup(pre, START_CODE, nal, lp, post);
    Regroup(pre, START_CODE, nal, ab, post);
  }

  /** For units of two bytes or more, the loop ends valid exactly if every unit passes, and then
      it has replaced every length by a start code, left the units alone and counted them. */
  lemma {:induction false} ScanLengthPrefixed(pre: seq<byte>, nals: seq<seq<byte>>, post: seq<byte>, base: nat, size: nat, count: nat)
    requires base <= |pre| && base + size == |pre| + |LengthPrefixed(nals)| && size < 0x8000_0000 && |post| >= 2
    requires forall i :: 0 <= i < |nals| ==> |nals[i]| >= 2
    ensures var r := ScanFrom(pre + LengthPrefixed(nals) + post, base, size, |pre|, count, false);
      && (r.outcome == Complete(base + size) <==> forall i :: 0 <= i < |nals| ==> IsH264(nals[i]))
      && (r.outcome == Complete(base + size) ==> r == Scan(pre + AnnexB(nals) + post, Complete(base + size), count + |nals|))
      && r.outcome != SizeOverflow && r.outcome != BadLength
    decreases |nals|
  {
    hide ScanFrom, IsH264, LengthPrefixed, AnnexB;
    if |nals| > 0 {
      FirstTurn(pre, nals, post, base, size, count);
      if IsH264(nals[0]) {
        assert forall i :: 0 < i < |nals| ==> nals[i] == nals[1..][i - 1];
        ScanLengthPrefixed(pre + START_CODE + nals[0], nals[1..], post, base, size, count + 1);
      }
    } else {
      NoLengths();
      assert nals == [];
      NoTurn(pre + [] + post, base, size, count);
    }
  }

  lemma NoLengths()
    ensures LengthPrefixed([]) == [] && AnnexB([]) == []
  {
  }

  lemma NoTurn(mem: seq<byte>, base: nat, size: nat, count: nat)
    requires base + size + 2 <= |mem|
    ensures ScanFrom(mem, base, size, base + size, count, false) == Scan(mem, Complete(base + size), count)
  {
  }

  /** The loop's turn at the first of some length-prefixed units. */
  lemma FirstTurn(pre: seq<byte>, nals: seq<seq<byte>>, post: seq<byte>, base: nat, size: nat, count: nat)
    requires base <= |pre| && base + size == |pre| + |LengthPrefixed(nals)| && size < 0x8000_0000 && |post| >= 2
    requires |nals| > 0 && |nals[0]| >= 2
    ensures var mem, pre' := pre + LengthPrefixed(nals) + post, pre + START_CODE + nals[0];
      var r := ScanFrom(mem, base, size, |pre|, count, false);
      && base + size == |pre'| + |LengthPrefixed(nals[1..])|
      && pre' + AnnexB(nals[1..]) + post == pre + AnnexB(nals) + post
      && if IsH264(nals[0])
         then r == ScanFrom(pre' + LengthPrefixed(nals[1..]) + post, base, size, |pre'|, count + 1, false)
         else r.outcome == ForbiddenBit || r.outcome == H265
  {
    hide Splice, AnnexB, LengthPrefixed, FromBE, ToBE;
    FirstUnit(nals);
    UnitAt(pre, nals, post);
    assert |nals[0]| < 0x8000_0000 < Pow256(4) by { Pow256Values(); }
    FromToBE(|nals[0]|, 4);
    assert LengthAt(pre + LengthPrefixed(nals) + post, |pre|) == |nals[0]|;
  }

  // ---- What the loop reads behind the payload ----

  /** At some turn the loop looks at a byte behind the payload: at a length field that is cut off, or
      at one of the two bytes after a length. The second is looked at only if the first passes. */
  predicate LooksBehind(mem: seq<byte>, base: nat, size: nat, pos: nat, seen: bool)
    requires base <= pos && base + size + 2 <= |mem|
    decreases base + size - pos
  {
    if pos >= base + size then false
    else if pos + 4 > base + size then true
    else if LengthAt(mem, pos) < 0 then false
    else if pos + 4 == base + size then true
    else if mem[pos + 4] >= 0x80 then false
    else if pos + 5 == base + size then true
    else if IsH265(mem[pos + 4], mem[pos + 5], seen) then false
    else if pos + 4 - base + LengthAt(mem, pos) >= 0x8000_0000 then false
    else LooksBehind(Splice(mem, pos, START_CODE), base, size, pos + 4 + LengthAt(mem, pos), seen)
  }

  /** What lies behind decides: some turn is the last in the payload and judges a unit by bytes behind
      it. A cut-off length is rejected whatever it is, and a unit's second byte only counts if its
      first may begin an H.265 unit. */
  predicate Decides(mem: seq<byte>, base: nat, size: nat, pos: nat, seen: bool)
    requires base <= pos && base + size + 2 <= |mem|
    decreases base + size - pos
  {
    if pos + 4 > base + size || LengthAt(mem, pos) < 0 then false
    else if pos + 4 == base + size then true
    else if mem[pos + 4] >= 0x80 then false
    else if pos + 5 == base + size then IsH265(mem[pos + 4], 1, seen)
    else if IsH265(mem[pos + 4], mem[pos + 5], seen) then false
    else if pos + 4 - base + LengthAt(mem, pos) >= 0x8000_0000 then false
    else Decides(Splice(mem, pos, START_CODE), base, size, pos + 4 + LengthAt(mem, pos), seen)
  }

  lemma {:induction false} DecidingLooks(mem: seq<byte>, base: nat, size: nat, pos: nat, seen: bool)
    requires base <= pos && base + size + 2 <= |mem| && Decides(mem, base, size, pos, seen)
    ensures LooksBehind(mem, base, size, pos, seen)
    decreases base + size - pos
  {
    hide Splice, FromBE;
    if pos + 5 < base + size {
      DecidingLooks(Splice(mem, pos, START_CODE), base, size, pos + 4 + LengthAt(mem, pos), seen);
    }
  }

  /** If it does not decide, it has no influence at all. */
  lemma {:induction false} BehindIsIgnored(mem: seq<byte>, mem': seq<byte>, base: nat, size: nat, pos: nat, count: nat, seen: bool)
    requires base <= pos && base + size + 2 <= |mem| && base + size + 2 <= |mem'|
    requires mem[..base + size] == mem'[..base + size] && !Decides(mem, base, size, pos, seen)
    ensures var r, r' := ScanFrom(mem, base, size, pos, count, seen), ScanFrom(mem', base, size, pos, count, seen);
      r.outcome == r'.outcome && r.count == r'.count && r.mem[..base + size] == r'.mem[..base + size]
    decreases base + size - pos
  {
    hide ScanFrom, Splice, FromBE;
    ScanOnce(mem, base, size, pos, count, seen);
    ScanOnce(mem', base, size, pos, count, seen);
    if pos + 4 <= base + size {
      SamePrefix(mem, mem', base + size, pos);
      var next, next' := Splice(mem, pos, START_CODE), Splice(mem', pos, START_CODE);
      if LengthAt(mem, pos) >= 0 {
        assert mem[pos + 4] == mem[..base + size][pos + 4] == mem'[pos + 4];
        if mem[pos + 4] < 0x80 {
          var pos' := pos + 4 + LengthAt(mem, pos);
          if pos + 5 < base + size {
            assert mem[pos + 5] == mem[..base + size][pos + 5] == mem'[pos + 5];
          }
          if pos + 5 == base + size || (!IsH265(mem[pos + 4], mem[pos + 5], seen) && pos' - base < 0x8000_0000) {
            BehindIsIgnored(next, next', base, size, pos', count + 1, seen);
          }
        }
      }
    }
  }

  /** The payload `mem[..end]` with two bytes behind it. */
  function WithBehind(mem: seq<byte>, end: nat, x: byte, y: byte): (r: seq<byte>)
    requires end <= |mem|
    ensures |r| == end + 2 && r[..end] == mem[..end] && r[end] == x && r[end + 1] == y
  {
    mem[..end] + [x, y]
  }

  /** If it decides, it can turn any payload into H.265 or not. */
  lemma {:induction false} BehindDecides(mem: seq<byte>, base: nat, size: nat, pos: nat, count: nat, seen: bool)
    returns (x: byte, y: byte)
    requires base <= pos && base + size + 2 <= |mem| && Decides(mem, base, size, pos, seen)
    ensures ScanFrom(WithBehind(mem, base + size, x, y), base, size, pos, count, seen).outcome == H265
    ensures ScanFrom(WithBehind(mem, base + size, 0, 0), base, size, pos, count, seen).outcome != H265
    decreases base + size - pos
  {
    hide ScanFrom, Splice, FromBE;
    var end := base + size;
    x, y := if pos + 4 == end then 0x28 else 1, 1;
    if pos + 5 < end {
      x, y := BehindDecides(Splice(mem, pos, START_CODE), base, size, pos + 4 + LengthAt(mem, pos), count + 1, seen);
    }
    TurnBefore(mem, base, size, pos, count, seen, x, y);
    TurnBefore(mem, base, size, pos, count, seen, 0, 0);
  }

  lemma SpliceWithBehind(mem: seq<byte>, end: nat, pos: nat, x: byte, y: byte)
    requires pos + 4 <= end <= |mem|
    ensures Splice(WithBehind(mem, end, x, y), pos, START_CODE) == WithBehind(Splice(mem, pos, START_CODE), end, x, y)
  {
  }

  /** One turn in front of two given bytes, at a length that lies inside the payload. */
  lemma TurnBefore(mem: seq<byte>, base: nat, size: nat, pos: nat, count: nat, seen: bool, x: byte, y: byte)
    requires base <= pos && base + size + 2 <= |mem| && pos + 4 <= base + size && LengthAt(mem, pos) >= 0
    ensures var m, end, pos' := WithBehind(mem, base + size, x, y), base + size, pos + 4 + LengthAt(mem, pos);
      var r := ScanFrom(m, base, size, pos, count, seen);
      && (pos + 4 == end && IsH265(x, y, seen) && x < 0x80 ==> r.outcome == H265)
      && (pos + 5 == end && mem[pos + 4] < 0x80 && IsH265(mem[pos + 4], x, seen) ==> r.outcome == H265)
      && (pos + 4 == end && x < 0x80 && !IsH265(x, y, seen) ==> r.outcome != H265)
      && (pos + 5 == end && mem[pos + 4] < 0x80 && !IsH265(mem[pos + 4], x, seen) ==> r.outcome != H265)
      && (pos + 5 < end && mem[pos + 4] < 0x80 && !IsH265(mem[pos + 4], mem[pos + 5], seen) && pos' - base < 0x8000_0000 ==>
            r == ScanFrom(WithBehind(Splice(mem, pos, START_CODE), end, x, y), base, size, pos', count + 1, seen))
  {
    hide ScanFrom, FromBE, Splice, WithBehind;
    var m, end := WithBehind(mem, base + size, x, y), base + size;
    SamePrefix(mem, m, end, pos);
    assert forall i :: 0 <= i < end ==> mem[i] == mem[..end][i] == m[i];
    ScanOnce(m, base, size, pos, count, seen);
    SpliceWithBehind(mem, end, pos, x, y);
    if pos + 4 + LengthAt(mem, pos) - base < 0x8000_0000 {
      ScanOnce(Splice(m, pos, START_CODE), base, size, pos + 4 + LengthAt(mem, pos), count + 1, seen);
    }
  }

  function OutcomeWith(mem: seq<byte>, base: nat, size: nat, pos: nat, seen: bool, x: byte, y: byte): Outcome
    requires base <= pos && base + size + 2 <= |mem|
  {
    ScanFrom(WithBehind(mem, base + size, x, y), base, size, pos, 0, seen).outcome
  }

  /** So the condition is exact: the outcome depends on what lies behind if and only if it decides. */
  lemma DecidesExactly(mem: seq<byte>, base: nat, size: nat, pos: nat, seen: bool)
    requires base <= pos && base + size + 2 <= |mem|
    ensures Decides(mem, base, size, pos, seen) <==> exists x: byte, y: byte, x': byte, y': byte ::
      OutcomeWith(mem, base, size, pos, seen, x, y) != OutcomeWith(mem, base, size, pos, seen, x', y')
  {
    hide ScanFrom, WithBehind, Decides;
    if Decides(mem, base, size, pos, seen) {
      var x, y := BehindDecides(mem, base, size, pos, 0, seen);
      assert OutcomeWith(mem, base, size, pos, seen, x, y) != OutcomeWith(mem, base, size, pos, seen, 0, 0);
    } else {
      forall x: byte, y: byte
        ensures OutcomeWith(mem, base, size, pos, seen, x, y) == ScanFrom(mem, base, size, pos, 0, seen).outcome
      {
        BehindIsIgnored(mem, WithBehind(mem, base + size, x, y), base, size, pos, 0, seen);
      }
    }
  }

  /** An instance: a lone length of zero is a valid payload or not by the byte behind. */
  lemma BehindMatters()
    ensures LooksBehind([0, 0, 0, 0, 0, 0], 0, 4, 0, false)
    ensures ScanFrom([0, 0, 0, 0, 0, 0], 0, 4, 0, 0, false).outcome == Complete(4)
    ensures ScanFrom([0, 0, 0, 0, 0x80, 0], 0, 4, 0, 0, false).outcome == ForbiddenBit
  {
    var zeros: seq<byte> := [0, 0, 0, 0];
    assert [0, 0, 0, 0, 0, 0][0..4] == zeros && [0, 0, 0, 0, 0x80, 0][0..4] == zeros;
    assert FromBE(zeros) == 0 by {
      assert zeros[..3] == [0, 0, 0] && FromBE([0, 0, 0]) == 0;
    }
  }

  lemma SamePrefix(mem: seq<byte>, mem': seq<byte>, end: nat, pos: nat)
    requires end <= |mem| && end <= |mem'| && mem[..end] == mem'[..end] && pos + 4 <= end
    ensures LengthAt(mem, pos) == LengthAt(mem', pos)
    ensures Splice(mem, pos, START_CODE)[..end] == Splice(mem', pos, START_CODE)[..end]
  {
    assert mem[pos..pos + 4] == mem[..end][pos..pos + 4] == mem'[pos..pos + 4];
    SpliceCut(mem, pos, START_CODE, end);
    SpliceCut(mem', pos, START_CODE, end);
    assert mem[..pos] == mem[..end][..pos] == mem'[..pos];
    assert mem[pos + 4..end] == mem[..end][pos + 4..] == mem'[pos + 4..end];
    hide Splice;
  }

  /** On units of two bytes or more it never does. */
  lemma {:induction false} UnitsStayInside(pre: seq<byte>, nals: seq<seq<byte>>, post: seq<byte>, base: nat, size: nat)
    requires base <= |pre| && base + size == |pre| + |LengthPrefixed(nals)| && size < 0x8000_0000 && |post| >= 2
    requires forall i :: 0 <= i < |nals| ==> |nals[i]| >= 2
    ensures !LooksBehind(pre + LengthPrefixed(nals) + post, base, size, |pre|, false)
    decreases |nals|
  {
    hide IsH264, LengthPrefixed, AnnexB, Splice, FromBE, ToBE;
    if |nals| > 0 {
      FirstUnit(nals);
      UnitAt(pre, nals, post);
      assert |nals[0]| < 0x8000_0000 < Pow256(4) by { Pow256Values(); }
      FromToBE(|nals[0]|, 4);
      assert LengthAt(pre + LengthPrefixed(nals) + post, |pre|) == |nals[0]|;
      assert forall i :: 0 < i < |nals| ==> nals[i] == nals[1..][i - 1];
      UnitsStayInside(pre + START_CODE + nals[0], nals[1..], post, base, size);
    } else {
      NoLengths();
      assert nals == [];
    }
  }

  /** The payload bytes from `pos` on are these units behind their lengths. */
  ghost predicate Tiles(mem: seq<byte>, pos: nat, end: nat, nals: seq<seq<byte>>) {
    pos <= end <= |mem| && mem[pos..end] == LengthPrefixed(nals)
    && forall i :: 0 <= i < |nals| && |nals[i]| > 0 ==> nals[i][0] < 0x80
  }

  /** Memory with the units `nals` from `pos` on behind start codes. */
  function InAnnexB(mem: seq<byte>, pos: nat, end: nat, nals: seq<seq<byte>>): seq<byte>
    requires pos <= end <= |mem|
  {
    mem[..pos] + AnnexB(nals) + mem[end..]
  }

  lemma NoUnits(mem: seq<byte>, pos: nat) returns (nals: seq<seq<byte>>)
    requires pos <= |mem|
    ensures Tiles(mem, pos, pos, nals) && |nals| == 0 && InAnnexB(mem, pos, pos, nals) == mem
  {
    nals := [];
  }

  /** From the memory after one length was replaced back to the memory before. */
  lemma TileAt(mem: seq<byte>, pos: nat, n: nat, end: nat, rest: seq<seq<byte>>) returns (nals: seq<seq<byte>>)
    requires pos + 4 + n <= end < |mem| && FromBE(mem[pos..pos + 4]) == n && mem[pos + 4] < 0x80
    requires Tiles(Splice(mem, pos, START_CODE), pos + 4 + n, end, rest)
    ensures Tiles(mem, pos, end, nals) && |nals| == |rest| + 1
    ensures InAnnexB(Splice(mem, pos, START_CODE), pos + 4 + n, end, rest) == InAnnexB(mem, pos, end, nals)
  {
    assert |START_CODE| == 4;
    hide Splice, AnnexB, LengthPrefixed, ToBE, FromBE, Tiles;
    var mem', nal, was, now := Splice(mem, pos, START_CODE), mem[pos + 4..pos + 4 + n], LengthPrefixed(rest), AnnexB(rest);
    TilesEqual(mem', pos + 4 + n, end, rest);
    nals := [nal] + rest;
    ToFromBE(mem[pos..pos + 4]);
    CutUnit(mem, pos, START_CODE, n, end, was, now);
    assert mem[pos..end] == ToBE(n, 4) + nal + was;
    TilesWith(mem, pos, end, mem', pos + 4 + n, nal, rest);
    assert InAnnexB(mem', pos + 4 + n, end, rest) == mem'[..pos + 4 + n] + now + mem'[end..];
  }

  lemma TilesEqual(mem: seq<byte>, pos: nat, end: nat, nals: seq<seq<byte>>)
    requires Tiles(mem, pos, end, nals)
    ensures pos <= end <= |mem| && mem[pos..end] == LengthPrefixed(nals)
  {
  }

  lemma TilesWith(mem: seq<byte>, pos: nat, end: nat, mem': seq<byte>, pos': nat, nal: seq<byte>, rest: seq<seq<byte>>)
    requires pos <= end <= |mem| && mem[pos..end] == ToBE(|nal|, 4) + nal + LengthPrefixed(rest)
    requires Tiles(mem', pos', end, rest) && (|nal| > 0 ==> nal[0] < 0x80)
    ensures Tiles(mem, pos, end, [nal] + rest)
    ensures AnnexB([nal] + rest) == START_CODE + nal + AnnexB(rest)
  {
    var nals := [nal] + rest;
    assert nals[0] == nal && nals[1..] == rest;
    FirstUnit(nals);
    hide LengthPrefixed, AnnexB, ToBE;
  }

  lemma CutUnit<T>(mem: seq<T>, pos: nat, code: seq<T>, n: nat, end: nat, was: seq<T>, now: seq<T>)
    requires pos + |code| + n <= end <= |mem|
    requires Splice(mem, pos, code)[pos + |code| + n..end] == was
    ensures var p, q := pos + |code|, pos + |code| + n;
      && mem[pos..end] == mem[pos..p] + mem[p..q] + was
      && Splice(mem, pos, code)[..q] + now + Splice(mem, pos, code)[end..] == mem[..pos] + (code + mem[p..q] + now) + mem[end..]
  {
    hide Splice;
    var mem', p, q := Splice(mem, pos, code), pos + |code|, pos + |code| + n;
    SpliceCut(mem, pos, code, q);
    SpliceCut(mem, pos, code, end);
    CutInThree(mem', q, q, q, end);
    CutInThree(mem, pos, p, q, end);
    Regroup(mem[..pos], code, mem[p..q], now, mem[end..]);
  }

  /** One turn of a loop that goes on to end valid. */
  lemma ValidTurn(mem: seq<byte>, base: nat, size: nat, pos: nat, count: nat, seen: bool)
    requires base <= pos < base + size && base + size + 2 <= |mem|
    requires ScanFrom(mem, base, size, pos, count, seen).outcome == Complete(base + size)
    ensures pos + 4 <= base + size && LengthAt(mem, pos) >= 0 && mem[pos + 4] < 0x80
    ensures FromBE(mem[pos..pos + 4]) == LengthAt(mem, pos)
    ensures ScanFrom(mem, base, size, pos, count, seen)
         == ScanFrom(Splice(mem, pos, START_CODE), base, size, pos + 4 + LengthAt(mem, pos), count + 1, seen)
    ensures pos + 4 + LengthAt(mem, pos) <= base + size
  {
    Pow256Values();
  }

  lemma ValidEnd(mem: seq<byte>, base: nat, size: nat, pos: nat, count: nat, seen: bool)
    requires base <= pos && base + size + 2 <= |mem| && pos >= base + size
    requires ScanFrom(mem, base, size, pos, count, seen).outcome == Complete(base + size)
    ensures pos == base + size && ScanFrom(mem, base, size, pos, count, seen) == Scan(mem, Complete(base + size), count)
  {
  }

  /** Conversely, a run that ends valid had lengths that tile the payload exactly. */
  lemma {:induction false} ValidTiles(mem: seq<byte>, base: nat, size: nat, pos: nat, count: nat, seen: bool)
    returns (nals: seq<seq<byte>>)
    requires base <= pos && base + size + 2 <= |mem|
    requires ScanFrom(mem, base, size, pos, count, seen).outcome == Complete(base + size)
    ensures Tiles(mem, pos, base + size, nals)
    ensures ScanFrom(mem, base, size, pos, count, seen)
         == Scan(InAnnexB(mem, pos, base + size, nals), Complete(base + size), count + |nals|)
    decreases base + size - pos
  {
    hide ScanFrom, Splice, InAnnexB, Tiles, LengthAt, FromBE;
    if pos >= base + size {
      ValidEnd(mem, base, size, pos, count, seen);
      nals := NoUnits(mem, pos);
    } else {
      ValidTurn(mem, base, size, pos, count, seen);
      var n := LengthAt(mem, pos);
      var rest := ValidTiles(Splice(mem, pos, START_CODE), base, size, pos + 4 + n, count + 1, seen);
      nals := TileAt(mem, pos, n, base + size, rest);
    }
  }
}
