/** The read half of Modbus function code 0x03 (Read Holding Registers,
    section 6.3 of the Modbus Application Protocol Specification V1.1b3) as
    the server uses it: a block of 16-bit registers read from address 100 is
    written big-endian into a zero-filled 36-byte buffer, and six
    little-endian 32-bit values are read back at byte offsets 0, 4, ..., 20.

    Joints are kept as 32-bit bit patterns; reinterpreting a pattern as an
    IEEE 754 binary32 value is not part of this model. */
module RegisterBlock {
  import opened Results
  import opened Bytes

  /** First holding register of the block. */
  const BaseAddress: nat := 100

  /** Number of registers requested per read. */
  const RegisterCount: nat := 18

  /** Size of the zero-filled buffer the registers are copied into. */
  const BufferSize: nat := 36

  /** Joints decoded from the buffer; bytes 24..35 are not decoded. */
  const JointCount: nat := 6

  type JointBits = s: seq<Bits32> | |s| == JointCount witness [0, 0, 0, 0, 0, 0]

  /** The range error Node's Buffer throws for a write past the end. */
  datatype BufferError = OffsetOutOfRange(offset: nat)

  /** `count` zero bytes, as `Buffer.alloc` returns them. */
  function Zeros(count: nat): (r: seq<Byte>)
    ensures |r| == count
    ensures forall j :: 0 <= j < count ==> r[j] == 0
  {
    seq(count, _ => 0)
  }

  /** `count` zero registers. */
  function ZeroWords(count: nat): (r: seq<Word>)
    ensures |r| == count
    ensures forall i :: 0 <= i < count ==> r[i] == 0
  {
    seq(count, _ => 0)
  }

  /** `buf.writeUInt16BE(value, offset)`: stores the two bytes of `value`,
      high byte first, or throws when they do not fit. */
  function WriteUInt16BE(buf: seq<Byte>, value: Word, offset: nat): (r: Result<seq<Byte>, BufferError>)
    ensures r.Success? <==> offset + 2 <= |buf|
    ensures r.Failure? ==> r.error == OffsetOutOfRange(offset)
    ensures r.Success? ==>
              && |r.value| == |buf|
              && r.value[offset] == Hi(value)
              && r.value[offset + 1] == Lo(value)
              && forall j :: 0 <= j < |buf| && j != offset && j != offset + 1 ==> r.value[j] == buf[j]
  {
    if offset + 2 > |buf| then Failure(OffsetOutOfRange(offset))
    else Success(buf[offset := Hi(value)][offset + 1 := Lo(value)])
  }

  /** Register `i` of a block, or 0 past its end: the value a register that
      was never written leaves in the zero-filled buffer. */
  function WordAt(words: seq<Word>, i: nat): Word
  {
    if i < |words| then words[i] else 0
  }

  /** Byte `j` of the buffer once every register `i` of `words` is stored
      big-endian at offset `2 * i` over zeros. */
  function LayoutByte(words: seq<Word>, j: nat): Byte
  {
    if j % 2 == 0 then Hi(WordAt(words, j / 2)) else Lo(WordAt(words, j / 2))
  }

  /** The copy loop: writes registers `i`, `i + 1`, ... of `words` into `buf`,
      stopping at the first write that does not fit. */
  function FillFrom(buf: seq<Byte>, words: seq<Word>, i: nat): (r: Result<seq<Byte>, BufferError>)
    requires i <= |words|
    ensures r.Success? <==> (i == |words| || 2 * |words| <= |buf|)
    ensures r.Success? ==>
              && |r.value| == |buf|
              && forall j :: 0 <= j < |buf| ==>
                   r.value[j] == (if 2 * i <= j < 2 * |words| then LayoutByte(words, j) else buf[j])
    decreases |words| - i
  {
    if i == |words| then Success(buf)
    else
      match WriteUInt16BE(buf, words[i], 2 * i)
      case Failure(e) => Failure(e)
      case Success(next) => FillFrom(next, words, i + 1)
  }

  /** The buffer the server builds from a register block: zero bytes
      overwritten by the block, or the range error of the write at offset
      36 when the block holds more than 18 registers. */
  function Linearize(words: seq<Word>): (r: Result<seq<Byte>, BufferError>)
    ensures r.Success? <==> |words| <= RegisterCount
    ensures r.Failure? ==> r.error == OffsetOutOfRange(BufferSize)
    ensures r.Success? ==>
              && |r.value| == BufferSize
              && forall j :: 0 <= j < BufferSize ==> r.value[j] == LayoutByte(words, j)
  {
    var r := FillFrom(Zeros(BufferSize), words, 0);
    if |words| > RegisterCount then
      FirstOverflowIsAtBufferEnd(Zeros(BufferSize), words, 0);
      r
    else
      r
  }

  /** A block that does not fit fails at the write of register 18,
      the first one whose offset is 36. */
  lemma {:induction false} FirstOverflowIsAtBufferEnd(buf: seq<Byte>, words: seq<Word>, i: nat)
    requires |buf| == BufferSize && i <= RegisterCount < |words|
    ensures FillFrom(buf, words, i) == Failure(OffsetOutOfRange(BufferSize))
    decreases RegisterCount - i
  {
    if i < RegisterCount {
      var next := WriteUInt16BE(buf, words[i], 2 * i);
      FirstOverflowIsAtBufferEnd(next.value, words, i + 1);
    }
  }

  /** `buf.readUInt32LE(offset)`: the four bytes from `offset` on, least
      significant first. `readFloatLE` reads the same four bytes. */
  function ReadUInt32LE(buf: seq<Byte>, offset: nat): Bits32
    requires offset + 4 <= |buf|
  {
    (buf[offset] as int) + 0x100 * (buf[offset + 1] as int)
    + 0x1_0000 * (buf[offset + 2] as int) + 0x100_0000 * (buf[offset + 3] as int)
  }

  /** The six joints read from the buffer at offsets 0, 4, ..., 20. */
  function ReadJoints(buf: seq<Byte>): (joints: JointBits)
    requires |buf| == BufferSize
  {
    [ReadUInt32LE(buf, 0), ReadUInt32LE(buf, 4), ReadUInt32LE(buf, 8),
     ReadUInt32LE(buf, 12), ReadUInt32LE(buf, 16), ReadUInt32LE(buf, 20)]
  }

  /** Reference meaning of joint `k`: registers 2k and 2k+1, each with its
      bytes exchanged, as the low and high halves of the pattern. */
  function JointSpec(words: seq<Word>, k: nat): Bits32
  {
    Join(Swap(WordAt(words, 2 * k)), Swap(WordAt(words, 2 * k + 1)))
  }

  /** The four bytes read at offset 4k are the bytes of registers 2k and 2k+1. */
  lemma ReadJointMatchesSpec(words: seq<Word>, buf: seq<Byte>, k: nat)
    requires k < JointCount && |buf| == BufferSize
    requires forall j :: 0 <= j < BufferSize ==> buf[j] == LayoutByte(words, j)
    ensures ReadUInt32LE(buf, 4 * k) == JointSpec(words, k)
  {
    var w0, w1 := WordAt(words, 2 * k), WordAt(words, 2 * k + 1);
    var o := 4 * k;
    assert o / 2 == 2 * k && (o + 1) / 2 == 2 * k && (o + 2) / 2 == 2 * k + 1 && (o + 3) / 2 == 2 * k + 1;
    assert o % 2 == 0 && (o + 1) % 2 == 1 && (o + 2) % 2 == 0 && (o + 3) % 2 == 1;
    assert buf[o] == Hi(w0) && buf[o + 1] == Lo(w0);
    assert buf[o + 2] == Hi(w1) && buf[o + 3] == Lo(w1);
    assert Swap(w0) == Lo(w0) * 0x100 + Hi(w0);
    assert Swap(w1) == Lo(w1) * 0x100 + Hi(w1);
  }

  /** All six joints read from the buffer are the reference joints. */
  lemma ReadJointsMatchSpec(words: seq<Word>, buf: seq<Byte>)
    requires |buf| == BufferSize
    requires forall j :: 0 <= j < BufferSize ==> buf[j] == LayoutByte(words, j)
    ensures forall k :: 0 <= k < JointCount ==> ReadJoints(buf)[k] == JointSpec(words, k)
  {
    ReadJointMatchesSpec(words, buf, 0);
    ReadJointMatchesSpec(words, buf, 1);
    ReadJointMatchesSpec(words, buf, 2);
    ReadJointMatchesSpec(words, buf, 3);
    ReadJointMatchesSpec(words, buf, 4);
    ReadJointMatchesSpec(words, buf, 5);
  }

  /** The server's decoder: a register block is laid out in the buffer and
      read back as six joint patterns, or fails when it overflows the buffer. */
  function Decode(words: seq<Word>): (r: Result<JointBits, BufferError>)
    ensures r.Success? <==> |words| <= RegisterCount
    ensures r.Success? ==> forall k :: 0 <= k < JointCount ==> r.value[k] == JointSpec(words, k)
  {
    match Linearize(words)
    case Failure(e) => Failure(e)
    case Success(buf) =>
      ReadJointsMatchSpec(words, buf);
      Success(ReadJoints(buf))
  }

  /** The block of 18 registers whose decoding yields `joints`, with the
      reserved registers 12..17 left zero. */
  function Encode(joints: JointBits): (words: seq<Word>)
    ensures |words| == RegisterCount
  {
    seq(RegisterCount, i requires 0 <= i < RegisterCount =>
      if i >= 2 * JointCount then 0
      else if i % 2 == 0 then Swap(LowHalf(joints[i / 2]))
      else Swap(HighHalf(joints[i / 2])))
  }

  /** Decoding an encoded block gives back the six patterns. */
  lemma DecodeEncode(joints: JointBits)
    ensures Decode(Encode(joints)) == Success(joints)
  {
    var words := Encode(joints);
    var decoded := Decode(words).value;
    forall k | 0 <= k < JointCount
      ensures decoded[k] == joints[k]
    {
      var low, high := LowHalf(joints[k]), HighHalf(joints[k]);
      assert (2 * k) / 2 == k && (2 * k) % 2 == 0;
      assert (2 * k + 1) / 2 == k && (2 * k + 1) % 2 == 1;
      assert WordAt(words, 2 * k) == Swap(low);
      assert WordAt(words, 2 * k + 1) == Swap(high);
      SwapInvolutive(low);
      SwapInvolutive(high);
      HalvesJoin(joints[k]);
    }
    assert decoded == joints;
  }

  /** The two registers encoded from decoded joint k are registers 2k and 2k+1. */
  lemma EncodeDecodeJoint(words: seq<Word>, k: nat)
    requires |words| <= RegisterCount && k < JointCount
    ensures Decode(words).Success?
    ensures Encode(Decode(words).value)[2 * k] == WordAt(words, 2 * k)
    ensures Encode(Decode(words).value)[2 * k + 1] == WordAt(words, 2 * k + 1)
  {
    var joints := Decode(words).value;
    var back := Encode(joints);
    var a, b := Swap(WordAt(words, 2 * k)), Swap(WordAt(words, 2 * k + 1));
    assert joints[k] == JointSpec(words, k) == Join(a, b);
    JoinSplits(a, b);
    assert LowHalf(joints[k]) == a && HighHalf(joints[k]) == b;
    assert (2 * k) / 2 == k && (2 * k) % 2 == 0;
    assert (2 * k + 1) / 2 == k && (2 * k + 1) % 2 == 1;
    assert back[2 * k] == Swap(a);
    assert back[2 * k + 1] == Swap(b);
    SwapInvolutive(WordAt(words, 2 * k));
    SwapInvolutive(WordAt(words, 2 * k + 1));
  }

  /** Encoding a decoded block gives back its first 12 registers (zero past
      a short block's end) followed by zeros: decoding loses nothing but the
      reserved registers 12..17. */
  lemma EncodeDecode(words: seq<Word>)
    requires |words| <= RegisterCount
    ensures Decode(words).Success?
    ensures forall i :: 0 <= i < RegisterCount ==>
              Encode(Decode(words).value)[i] == (if i < 2 * JointCount then WordAt(words, i) else 0)
  {
    var back := Encode(Decode(words).value);
    forall k | 0 <= k < JointCount
      ensures back[2 * k] == WordAt(words, 2 * k) && back[2 * k + 1] == WordAt(words, 2 * k + 1)
    {
      EncodeDecodeJoint(words, k);
    }
    forall i | 0 <= i < 2 * JointCount
      ensures back[i] == WordAt(words, i)
    {
      var k := i / 2;
      assert i == 2 * k || i == 2 * k + 1;
      assert back[2 * k] == WordAt(words, 2 * k) && back[2 * k + 1] == WordAt(words, 2 * k + 1);
    }
  }

  /** A block shorter than 18 registers decodes as if padded with zeros. */
  lemma ShortBlockIsZeroPadded(words: seq<Word>)
    requires |words| <= RegisterCount
    ensures Decode(words) == Decode(words + ZeroWords(RegisterCount - |words|))
  {
    var padded := words + ZeroWords(RegisterCount - |words|);
    forall i | 0 <= i
      ensures WordAt(words, i) == WordAt(padded, i)
    {
    }
    SameLeadingRegistersDecodeAlike(words, padded);
  }

  /** Joint k depends on registers 2k and 2k+1 only. */
  lemma JointDependsOnItsRegisters(a: seq<Word>, b: seq<Word>, k: nat)
    requires |a| <= RegisterCount && |b| <= RegisterCount && k < JointCount
    requires WordAt(a, 2 * k) == WordAt(b, 2 * k) && WordAt(a, 2 * k + 1) == WordAt(b, 2 * k + 1)
    ensures Decode(a).value[k] == Decode(b).value[k]
  {
  }

  /** Blocks that agree on registers 0..11 decode alike: the reserved
      registers 12..17 never affect the joints. */
  lemma SameLeadingRegistersDecodeAlike(a: seq<Word>, b: seq<Word>)
    requires |a| <= RegisterCount && |b| <= RegisterCount
    requires forall i :: 0 <= i < 2 * JointCount ==> WordAt(a, i) == WordAt(b, i)
    ensures Decode(a) == Decode(b)
  {
    var ja, jb := Decode(a).value, Decode(b).value;
    forall k | 0 <= k < JointCount
      ensures ja[k] == jb[k]
    {
      JointDependsOnItsRegisters(a, b, k);
    }
    assert ja == jb;
  }

  /** A joint whose two registers are zero has the zero pattern. */
  lemma ZeroRegistersZeroJoint(words: seq<Word>, k: nat)
    requires WordAt(words, 2 * k) == 0 && WordAt(words, 2 * k + 1) == 0
    ensures JointSpec(words, k) == 0
  {
    assert Swap(0) == 0;
  }

  /** The reference value of joint 1 for registers 0x0000, 0x3442. */
  lemma FirstJointOfExample(words: seq<Word>)
    requires |words| >= 2 && words[0] == 0x0000 && words[1] == 0x3442
    ensures JointSpec(words, 0) == 0x4234_0000
  {
    assert Swap(words[1]) == 0x4234;
    assert Swap(words[0]) == 0;
  }

  /** The reference joints of the example block. */
  lemma FortyFiveDegreesJoints(words: seq<Word>)
    requires |words| == RegisterCount && words[0] == 0x0000 && words[1] == 0x3442
    requires forall i :: 2 <= i < RegisterCount ==> words[i] == 0
    ensures forall k :: 0 <= k < JointCount ==> JointSpec(words, k) == [0x4234_0000, 0, 0, 0, 0, 0][k]
  {
    FirstJointOfExample(words);
    ZeroRegistersZeroJoint(words, 1);
    ZeroRegistersZeroJoint(words, 2);
    ZeroRegistersZeroJoint(words, 3);
    ZeroRegistersZeroJoint(words, 4);
    ZeroRegistersZeroJoint(words, 5);
  }

  /** Registers 0x0000, 0x3442 followed by sixteen zeros: joint 1 is
      0x42340000, the binary32 pattern of 45.0, and the other joints are 0. */
  lemma FortyFiveDegreesExample(words: seq<Word>)
    requires |words| == RegisterCount && words[0] == 0x0000 && words[1] == 0x3442
    requires forall i :: 2 <= i < RegisterCount ==> words[i] == 0
    ensures Decode(words) == Success([0x4234_0000, 0, 0, 0, 0, 0])
  {
    var expected: JointBits := [0x4234_0000, 0, 0, 0, 0, 0];
    FortyFiveDegreesJoints(words);
    var joints := Decode(words).value;
    assert forall k :: 0 <= k < JointCount ==> joints[k] == expected[k];
    assert joints == expected;
  }
}
