/** The disk daemon's block transfer (xinu-disk.c): two hex digits a byte, decoded in place, and an XOR checksum.
    Bytes are 8-bit words, so the daemon's char arithmetic wraps as it does there. */
module DiskCodec {

  const ZERO: bv8 := 0x30
  const NINE: bv8 := 0x39
  const CAPITAL_A: bv8 := 0x41

  /** The value of a hex digit as decode reads it. */
  function Value(c: bv8): bv8 {
    if c >= ZERO && c <= NINE then c - ZERO else 10 + c - CAPITAL_A
  }

  function Decode(c1: bv8, c2: bv8): bv8 {
    Value(c1) * 16 + Value(c2)
  }

  /** The digit encode writes for a value below 16. */
  function Digit(x: bv8): bv8 {
    if x > 9 then CAPITAL_A + (x - 10) else x + ZERO
  }

  function HighDigit(b: bv8): bv8 {
    Digit((b & 0xF0) >> 4)
  }

  function LowDigit(b: bv8): bv8 {
    Digit(b & 0x0F)
  }

  predicate IsHex(c: bv8) {
    ZERO <= c <= NINE || CAPITAL_A <= c <= CAPITAL_A + 5
  }

  /** decode undoes encode, for every byte. */
  lemma DecodeUndoesEncode(b: bv8)
    ensures Decode(HighDigit(b), LowDigit(b)) == b
    ensures IsHex(HighDigit(b)) && IsHex(LowDigit(b))
  {
  }

  /** ... and encode undoes decode, for every two hex digits. */
  lemma EncodeUndoesDecode(c1: bv8, c2: bv8)
    requires IsHex(c1) && IsHex(c2)
    ensures HighDigit(Decode(c1, c2)) == c1 && LowDigit(Decode(c1, c2)) == c2
  {
  }

  const HEX: string := "0123456789ABCDEF"

  lemma HexAt(i: nat)
    requires i < 16
    ensures HEX[i] as int == if i < 10 then 0x30 + i else 0x41 + (i - 10)
  {
  }

  lemma DigitIsHex(x: bv8)
    requires x < 16
    ensures 0 <= x as int < 16 && Digit(x) as int == HEX[x as int] as int
  {
    HexAt(x as int);
  }

  lemma Halves(b: bv8)
    ensures (b & 0xF0) >> 4 < 16 && b & 0x0F < 16
    ensures ((b & 0xF0) >> 4) as int == b as int / 16 && (b & 0x0F) as int == b as int % 16
  {
  }

  /** encode writes hexadecimal, the high digit first. */
  lemma EncodeWritesHex(b: bv8)
    ensures HighDigit(b) as int == HEX[b as int / 16] as int && LowDigit(b) as int == HEX[b as int % 16] as int
  {
    hide Digit;
    Halves(b);
    DigitIsHex((b & 0xF0) >> 4);
    DigitIsHex(b & 0x0F);
  }

  lemma ValueReadsHex(c: bv8, i: nat)
    requires i < 16 && c as int == HEX[i] as int
    ensures Value(c) < 16 && Value(c) as int == i
  {
    HexAt(i);
  }

  /** decode reads it. */
  lemma DecodeReadsHex(c1: bv8, c2: bv8, hi: nat, lo: nat)
    requires hi < 16 && lo < 16 && c1 as int == HEX[hi] as int && c2 as int == HEX[lo] as int
    ensures Decode(c1, c2) as int == 16 * hi + lo
  {
    hide Value;
    ValueReadsHex(c1, hi);
    ValueReadsHex(c2, lo);
    Sixteens(Value(c1), Value(c2));
  }

  lemma Sixteens(hi: bv8, lo: bv8)
    requires hi < 16 && lo < 16
    ensures (hi * 16 + lo) as int == 16 * (hi as int) + lo as int
  {
  }

  function EncodeAll(s: seq<bv8>): (r: seq<bv8>)
    ensures |r| == 2 * |s|
  {
    if s == [] then [] else [HighDigit(s[0]), LowDigit(s[0])] + EncodeAll(s[1..])
  }

  function DecodeAll(s: seq<bv8>): (r: seq<bv8>)
    ensures |r| == |s| / 2
  {
    if |s| < 2 then [] else [Decode(s[0], s[1])] + DecodeAll(s[2..])
  }

  function Checksum(s: seq<bv8>): bv8 {
    if s == [] then 0 else Checksum(s[..|s| - 1]) ^ s[|s| - 1]
  }

  lemma ChecksumNone()
    ensures Checksum([]) == 0
  {
  }

  lemma ChecksumStep(s: seq<bv8>, b: bv8)
    ensures Checksum(s + [b]) == Checksum(s) ^ b
  {
    assert (s + [b])[..|s|] == s;
  }

  lemma {:induction false} EncodeAllAt(s: seq<bv8>, i: nat)
    requires i < |s|
    ensures EncodeAll(s)[2 * i] == HighDigit(s[i]) && EncodeAll(s)[2 * i + 1] == LowDigit(s[i])
  {
    if i == 0 {
    } else {
      EncodeAllAt(s[1..], i - 1);
    }
  }

  /** The line in hexadecimal: two digits for each byte, in the order of the block. */
  lemma LineIsHex(s: seq<bv8>, i: nat)
    requires i < |s|
    ensures EncodeAll(s)[2 * i] as int == HEX[s[i] as int / 16] as int
    ensures EncodeAll(s)[2 * i + 1] as int == HEX[s[i] as int % 16] as int
  {
    hide EncodeAll, HighDigit, LowDigit;
    EncodeAllAt(s, i);
    EncodeWritesHex(s[i]);
  }

  /** Changing one byte changes the checksum by the bits in which the byte changes. */
  lemma {:induction false} ChecksumUpdate(s: seq<bv8>, i: nat, b: bv8)
    requires i < |s|
    ensures Checksum(s[i := b]) == Checksum(s) ^ (s[i] ^ b)
  {
    hide Checksum;
    var last := |s| - 1;
    var front, z := s[..last], s[last];
    assert s == front + [z];
    ChecksumStep(front, z);
    if i == last {
      assert s[i := b] == front + [b];
      ChecksumStep(front, b);
      Replaced(Checksum(front), z, b);
    } else {
      assert s[i := b] == front[i := b] + [z];
      ChecksumStep(front[i := b], z);
      ChecksumUpdate(front, i, b);
      Swapped(Checksum(front), z, s[i] ^ b);
    }
  }

  lemma Replaced(sum: bv8, a: bv8, b: bv8)
    ensures sum ^ b == (sum ^ a) ^ (a ^ b)
  {
  }

  lemma Swapped(sum: bv8, a: bv8, b: bv8)
    ensures (sum ^ b) ^ a == (sum ^ a) ^ b
  {
  }

  /** ... so no change of one byte goes unnoticed. */
  lemma ChecksumDetects(s: seq<bv8>, i: nat, b: bv8)
    requires i < |s|
    ensures Checksum(s[i := b]) == Checksum(s) <==> b == s[i]
  {
    hide Checksum;
    ChecksumUpdate(s, i, b);
    Differs(Checksum(s), s[i], b, Checksum(s[i := b]));
  }

  lemma Differs(sum: bv8, a: bv8, b: bv8, sum': bv8)
    requires sum' == sum ^ (a ^ b)
    ensures sum' == sum <==> b == a
  {
  }

  /** A block of any size survives the transfer. */
  lemma {:induction false} BlockRoundTrip(s: seq<bv8>)
    ensures DecodeAll(EncodeAll(s)) == s
  {
    if s == [] {
    } else {
      DecodeUndoesEncode(s[0]);
      BlockRoundTrip(s[1..]);
      assert EncodeAll(s)[2..] == EncodeAll(s[1..]);
    }
  }

  /** encode: the two values first, then each turned into its digit. */
  method Encode(buffer: array<bv8>, at: nat, b: bv8) returns (r: int)
    requires at + 1 < buffer.Length
    modifies buffer
    ensures r == 0 && buffer[..] == old(buffer[..])[at := HighDigit(b)][at + 1 := LowDigit(b)]
  {
    hide Digit;
    buffer[at] := (b & 0xF0) >> 4;
    buffer[at + 1] := b & 0x0F;
    ToDigit(buffer, at);
    ToDigit(buffer, at + 1);
    r := 0;
  }

  method ToDigit(buffer: array<bv8>, at: nat)
    requires at < buffer.Length
    modifies buffer
    ensures buffer[..] == old(buffer[..])[at := Digit(old(buffer[at]))]
  {
    if buffer[at] > 9 {
      buffer[at] := CAPITAL_A + (buffer[at] - 10);
    } else {
      buffer[at] := buffer[at] + ZERO;
    }
  }

  /** The loop of readBlockRequest: encode a block into a line and add it up. */
  method ReadBlockRequest(buffin: array<bv8>, buffer: array<bv8>) returns (chksum: bv8)
    requires buffer != buffin && buffer.Length == 2 * buffin.Length + 1
    modifies buffer
    ensures buffer[..] == EncodeAll(buffin[..]) + [0] && chksum == Checksum(buffin[..])
  {
    hide HighDigit, LowDigit, EncodeAll, Checksum;
    ChecksumNone();
    chksum := 0;
    for i := 0 to buffin.Length
      invariant chksum == Checksum(buffin[..i])
      invariant forall k | 0 <= k < i ::
                  buffer[2 * k] == HighDigit(buffin[k]) && buffer[2 * k + 1] == LowDigit(buffin[k])
    {
      var _ := Encode(buffer, i * 2, buffin[i]);
      chksum := chksum ^ buffin[i];
      assert buffin[..i + 1] == buffin[..i] + [buffin[i]];
      ChecksumStep(buffin[..i], buffin[i]);
    }
    buffer[buffin.Length * 2] := 0;
    LineIs(buffin[..], buffer[..]);
    assert buffin[..buffin.Length] == buffin[..];
  }

  lemma LineIs(s: seq<bv8>, line: seq<bv8>)
    requires |line| == 2 * |s| + 1 && line[2 * |s|] == 0
    requires forall k | 0 <= k < |s| :: line[2 * k] == HighDigit(s[k]) && line[2 * k + 1] == LowDigit(s[k])
    ensures line == EncodeAll(s) + [0]
  {
    hide HighDigit, LowDigit, EncodeAll;
    forall j | 0 <= j < 2 * |s| ensures line[j] == EncodeAll(s)[j] {
      var k := j / 2;
      EncodeAllAt(s, k);
      assert j == 2 * k || j == 2 * k + 1;
    }
  }

  /** The loop of writeBlockRequest: 2n digits are decoded into the front of the buffer that holds them. */
  method WriteBlockRequest(buffer: array<bv8>, n: nat) returns (chksum: bv8)
    requires 2 * n + 1 == buffer.Length
    modifies buffer
    ensures buffer[..n] == DecodeAll(old(buffer[..2 * n])) && chksum == Checksum(buffer[..n])
    ensures buffer[n] == 0 && forall k | n < k < buffer.Length :: buffer[k] == old(buffer[k])
  {
    hide Decode, DecodeAll, Checksum;
    ChecksumNone();
    chksum := 0;
    for i := 0 to n
      invariant chksum == Checksum(buffer[..i])
      invariant forall k | 0 <= k < i :: buffer[k] == Decode(old(buffer[2 * k]), old(buffer[2 * k + 1]))
      invariant forall k | i <= k < buffer.Length :: buffer[k] == old(buffer[k])
    {
      ghost var before := buffer[..i];
      buffer[i] := Decode(buffer[i * 2], buffer[i * 2 + 1]);
      chksum := chksum ^ buffer[i];
      assert buffer[..i + 1] == before + [buffer[i]];
      ChecksumStep(before, buffer[i]);
    }
    BlockIs(old(buffer[..2 * n]), buffer[..n]);
    ghost var block := buffer[..n];
    buffer[n] := 0;
    assert buffer[..n] == block;
  }

  lemma {:induction false} BlockIs(line: seq<bv8>, s: seq<bv8>)
    requires |line| == 2 * |s|
    requires forall k | 0 <= k < |s| :: s[k] == Decode(line[2 * k], line[2 * k + 1])
    ensures s == DecodeAll(line)
  {
    hide Decode;
    if s == [] {
    } else {
      forall k | 0 <= k < |s[1..]| ensures s[1..][k] == Decode(line[2..][2 * k], line[2..][2 * k + 1]) {
        assert s[1..][k] == s[k + 1];
      }
      BlockIs(line[2..], s[1..]);
      assert s == [s[0]] + s[1..];
    }
  }

  /** A block read by one side and written by the other: the same bytes, and the two checksums agree. */
  method Transfer(block: array<bv8>) returns (line: array<bv8>, sent: bv8, received: bv8)
    ensures fresh(line) && line.Length == 2 * block.Length + 1
    ensures line[..block.Length] == block[..] && sent == received == Checksum(block[..])
  {
    line := new bv8[2 * block.Length + 1];
    sent := ReadBlockRequest(block, line);
    BlockRoundTrip(block[..]);
    assert line[..2 * block.Length] == EncodeAll(block[..]);
    received := WriteBlockRequest(line, block.Length);
  }
}
