/** The on-device form of a block: a packed 10-byte metadata record followed by
    the payload (include/device.h). */
module Layout {

  const BLOCK_SIZE := 4096
  const METADATA_SIZE := 10
  const MAX_MESSAGE := 4086
  const NUM_METADATA_BLKS := 2

  type Byte = b: int | 0 <= b < 0x100

  /** A signed 64-bit count of nanoseconds (`ktime_t`). */
  type Time = t: int | -0x8000_0000_0000_0000 <= t < 0x8000_0000_0000_0000

  /** The 15-bit field `valid_bytes`. */
  type Length15 = n: int | 0 <= n < 0x8000

  type Block = b: seq<Byte> | |b| == BLOCK_SIZE witness seq(BLOCK_SIZE, _ => 0)

  /** A message as `put_data` accepts it. */
  type Message = m: seq<Byte> | |m| <= MAX_MESSAGE

  datatype Metadata = Metadata(nsec: Time, valid: bool, bytes: Length15)

  function Pow256(n: nat): (p: nat)
    ensures p > 0
  {
    if n == 0 then 1 else 256 * Pow256(n - 1)
  }

  /** `n` little-endian bytes of `v`. */
  function ToBytes(v: nat, n: nat): (s: seq<Byte>)
    ensures |s| == n
    decreases v, n
  {
    if n == 0 then [] else [v % 256] + ToBytes(v / 256, n - 1)
  }

  function FromBytes(s: seq<Byte>): (v: nat)
    ensures v < Pow256(|s|)
  {
    if s == [] then 0 else s[0] + 256 * FromBytes(s[1..])
  }

  lemma {:induction false} FromToBytes(v: nat, n: nat)
    requires v < Pow256(n)
    ensures FromBytes(ToBytes(v, n)) == v
    decreases n
  {
    if n > 0 {
      FromToBytes(v / 256, n - 1);
      assert ToBytes(v, n)[1..] == ToBytes(v / 256, n - 1);
    }
  }

  lemma {:induction false} ToFromBytes(s: seq<Byte>)
    ensures ToBytes(FromBytes(s), |s|) == s
  {
    if s != [] {
      ToFromBytes(s[1..]);
      assert FromBytes(s) % 256 == s[0] && FromBytes(s) / 256 == FromBytes(s[1..]);
    }
  }

  /** Two's complement view of a timestamp. */
  function UnsignedTime(t: Time): nat {
    if t < 0 then t + 0x1_0000_0000_0000_0000 else t
  }

  function SignedTime(v: nat): Time
    requires v < 0x1_0000_0000_0000_0000
  {
    if v < 0x8000_0000_0000_0000 then v else v - 0x1_0000_0000_0000_0000
  }

  /** The packed record: 8 bytes of timestamp, then 16 bits whose lowest bit is the validity. */
  function EncodeMetadata(m: Metadata): (s: seq<Byte>)
    ensures |s| == METADATA_SIZE
  {
    ToBytes(UnsignedTime(m.nsec), 8) + ToBytes((if m.valid then 1 else 0) + 2 * m.bytes, 2)
  }

  lemma Pow256Values()
    ensures Pow256(2) == 0x1_0000
    ensures Pow256(8) == 0x1_0000_0000_0000_0000
  {
    assert Pow256(1) == 256;
    assert Pow256(4) == 256 * 256 * 256 * 256 by {
      assert Pow256(2) == 256 * 256;
      assert Pow256(3) == 256 * 256 * 256;
    }
    assert Pow256(5) == 256 * Pow256(4);
    assert Pow256(6) == 256 * Pow256(5);
    assert Pow256(7) == 256 * Pow256(6);
  }

  function DecodeMetadata(s: seq<Byte>): (m: Metadata)
    requires |s| >= METADATA_SIZE
  {
    Pow256Values();
    var flags := FromBytes(s[8..10]);
    Metadata(SignedTime(FromBytes(s[..8])), flags % 2 == 1, flags / 2)
  }

  /** Decoding undoes encoding, whatever follows the record in the block. */
  lemma DecodeEncode(m: Metadata, rest: seq<Byte>)
    ensures DecodeMetadata(EncodeMetadata(m) + rest) == m
  {
    Pow256Values();
    var flags := (if m.valid then 1 else 0) + 2 * m.bytes;
    var s := EncodeMetadata(m) + rest;
    assert s[..8] == ToBytes(UnsignedTime(m.nsec), 8);
    assert s[8..10] == ToBytes(flags, 2);
    FromToBytes(UnsignedTime(m.nsec), 8);
    FromToBytes(flags, 2);
  }

  /** Every 10-byte prefix is the encoding of what it decodes to: no byte pattern is lost. */
  lemma EncodeDecode(s: seq<Byte>)
    requires |s| >= METADATA_SIZE
    ensures EncodeMetadata(DecodeMetadata(s)) == s[..METADATA_SIZE]
  {
    Pow256Values();
    var m := DecodeMetadata(s);
    assert UnsignedTime(m.nsec) == FromBytes(s[..8]);
    ToFromBytes(s[..8]);
    ToFromBytes(s[8..10]);
    assert s[..8] + s[8..10] == s[..10];
  }

  function Zeros(n: nat): (s: seq<Byte>)
    ensures |s| == n
  {
    seq(n, _ => 0)
  }

  /** The buffer that `put_data` prepares: metadata, message, zero padding. */
  function BlockOf(nsec: Time, msg: Message): (b: Block)
    ensures b[..METADATA_SIZE] == EncodeMetadata(Metadata(nsec, true, |msg|))
    ensures Payload(b, |msg|) == msg
  {
    EncodeMetadata(Metadata(nsec, true, |msg|)) + msg + Zeros(MAX_MESSAGE - |msg|)
  }

  /** The first `n` bytes after the metadata. */
  function Payload(b: Block, n: nat): (s: seq<Byte>)
    requires n <= MAX_MESSAGE
    ensures |s| == n
  {
    b[METADATA_SIZE..METADATA_SIZE + n]
  }

  /** The block after its metadata record has been rewritten in place. */
  function Rewritten(b: Block, m: Metadata): (r: Block)
    ensures r[METADATA_SIZE..] == b[METADATA_SIZE..]
    ensures r[..METADATA_SIZE] == EncodeMetadata(m)
  {
    EncodeMetadata(m) + b[METADATA_SIZE..]
  }

  /** A copy in progress: the first `k` bytes come from `src`, the others are still those of `dst`. */
  function Mixed(src: Block, dst: Block, k: nat): (b: Block)
    requires k <= BLOCK_SIZE
    ensures k == 0 ==> b == dst
    ensures k == BLOCK_SIZE ==> b == src
  {
    src[..k] + dst[k..]
  }

  /** Clearing the validity bit rewrites one byte of the record, the ninth, and only its lowest bit. */
  lemma InvalidateOneBit(m: Metadata)
    requires m.valid
    ensures var s, r := EncodeMetadata(m), EncodeMetadata(m.(valid := false));
            s[8] % 2 == 1 && r == s[8 := s[8] - 1]
  {
    var v := 1 + 2 * m.bytes;
    assert v % 256 == (2 * m.bytes) % 256 + 1 && v / 256 == (2 * m.bytes) / 256;
    assert ToBytes(v, 2) == [v % 256] + ToBytes(v / 256, 1);
    assert ToBytes(2 * m.bytes, 2) == [(2 * m.bytes) % 256] + ToBytes((2 * m.bytes) / 256, 1);
  }

  // ----- the bytes of a block -----

  /** Eight bytes as a number, the lowest byte first. */
  function LittleEndian(s: seq<Byte>): (v: nat)
    requires |s| == 8
  {
    var a: int, b: int, c: int, d: int, e: int, f: int, g: int, h: int := s[0], s[1], s[2], s[3], s[4], s[5], s[6], s[7];
    a + 0x100 * b + 0x1_0000 * c + 0x100_0000 * d
    + 0x1_0000_0000 * e + 0x100_0000_0000 * f + 0x1_0000_0000_0000 * g + 0x100_0000_0000_0000 * h
  }

  /** Two bytes as a number, the lower one first. */
  function TwoBytes(s: seq<Byte>): (v: nat)
    requires |s| == 2
  {
    var a: int, b: int := s[0], s[1];
    a + 0x100 * b
  }

  lemma FromEightBytes(s: seq<Byte>)
    requires |s| == 8
    ensures FromBytes(s) == LittleEndian(s)
  {
    FromFourBytes(s[..4]);
    FromFourBytes(s[4..]);
    assert FromBytes(s) == s[0] + 256 * FromBytes(s[1..]);
    assert FromBytes(s[1..]) == s[1] + 256 * FromBytes(s[2..]) by { assert s[1..][1..] == s[2..]; }
    assert FromBytes(s[2..]) == s[2] + 256 * FromBytes(s[3..]) by { assert s[2..][1..] == s[3..]; }
    assert FromBytes(s[3..]) == s[3] + 256 * FromBytes(s[4..]) by { assert s[3..][1..] == s[4..]; }
  }

  lemma FromFourBytes(s: seq<Byte>)
    requires |s| == 4
    ensures var a: int, b: int, c: int, d: int := s[0], s[1], s[2], s[3];
            FromBytes(s) == a + 0x100 * b + 0x1_0000 * c + 0x100_0000 * d
  {
    assert FromBytes(s[1..]) == s[1] + 256 * FromBytes(s[2..]) by { assert s[1..][1..] == s[2..]; }
    assert FromBytes(s[2..]) == s[2] + 256 * FromBytes(s[3..]) by { assert s[2..][1..] == s[3..]; }
    assert FromBytes(s[3..]) == s[3] + 256 * FromBytes([]) by { assert s[3..][1..] == []; }
  }

  /** The first ten bytes of `b`: the timestamp in two's complement, lowest byte first, then one bit of
      validity and fifteen of length. */
  ghost predicate StartsWith(b: seq<Byte>, nsec: Time, valid: bool, bytes: Length15) {
    && |b| >= 10
    && LittleEndian(b[..8]) == (if nsec < 0 then nsec + 0x1_0000_0000_0000_0000 else nsec)
    && TwoBytes(b[8..10]) == (if valid then 1 else 0) + 2 * bytes
  }

  /** The packed record, byte by byte. */
  lemma MetadataBytes(m: Metadata)
    ensures StartsWith(EncodeMetadata(m), m.nsec, m.valid, m.bytes)
  {
    Pow256Values();
    var s, flags := EncodeMetadata(m), (if m.valid then 1 else 0) + 2 * m.bytes;
    assert s[..8] == ToBytes(UnsignedTime(m.nsec), 8);
    FromToBytes(UnsignedTime(m.nsec), 8);
    FromEightBytes(s[..8]);
    assert s[8..10] == ToBytes(flags, 2);
    FromToBytes(flags, 2);
    FromTwoBytes(s[8..10]);
  }

  lemma FromTwoBytes(s: seq<Byte>)
    requires |s| == 2
    ensures FromBytes(s) == TwoBytes(s)
  {
    assert FromBytes(s[1..]) == s[1] + 256 * FromBytes([]) by { assert s[1..][1..] == []; }
  }

  /** What a put writes: the record, the message, and zeros to the end of the block. */
  ghost predicate IsWritten(b: Block, nsec: Time, msg: Message) {
    && StartsWith(b, nsec, true, |msg|)
    && (forall p :: 0 <= p < |msg| ==> b[10 + p] == msg[p])
    && forall p :: 10 + |msg| <= p < 4096 ==> b[p] == 0
  }

  lemma WrittenBlock(nsec: Time, msg: Message)
    ensures IsWritten(BlockOf(nsec, msg), nsec, msg)
  {
    hide EncodeMetadata;
    var b, m := BlockOf(nsec, msg), Metadata(nsec, true, |msg|);
    MetadataBytes(m);
    assert b[..8] == EncodeMetadata(m)[..8];
    assert b[8..10] == EncodeMetadata(m)[8..10];
  }

  /** A number has one form in eight bytes. */
  lemma OneForm(s: seq<Byte>, v: nat)
    requires |s| == 8 && v < 0x1_0000_0000_0000_0000
    ensures LittleEndian(s) == v <==> s == ToBytes(v, 8)
  {
    Pow256Values();
    FromEightBytes(s);
    FromToBytes(v, 8);
    ToFromBytes(s);
  }
}
