/** The header and the chunks of a WAV file, src/core/cwAudioFile.cpp: what is written in front of the
    samples when a file is closed, and what opening a file finds. */
module WavFile {
  import opened Bytes
  import opened Stride
  import opened Pcm

  const RiffId: seq<byte> := [0x52, 0x49, 0x46, 0x46]
  const WaveId: seq<byte> := [0x57, 0x41, 0x56, 0x45]
  const FmtId: seq<byte> := [0x66, 0x6d, 0x74, 0x20]
  const DataId: seq<byte> := [0x64, 0x61, 0x74, 0x61]
  const BextId: seq<byte> := [0x62, 0x65, 0x78, 0x74]
  const FormId: seq<byte> := [0x46, 0x4f, 0x52, 0x4d]
  const AiffId: seq<byte> := [0x41, 0x49, 0x46, 0x46]
  const AifcId: seq<byte> := [0x41, 0x49, 0x46, 0x43]
  const BackwardAiffId: seq<byte> := [0x46, 0x46, 0x49, 0x41]
  const BackwardAifcId: seq<byte> := [0x43, 0x46, 0x49, 0x41]

  const HeaderSize := 44
  const BextSize := 256 + 32 + 32 + 10 + 8 + 4 + 4
  const IntegerFmt := 1
  const FloatFmt := 3

  datatype RC = Ok | ReadFail | SyntaxError | InvalidArg | DivisionByZero

  datatype Info = Info(chCnt: nat, bits: nat, srate: nat, frameCnt: nat, smpByteOffs: nat, isFloat: bool,
                       bext: seq<byte>)

  /** An AIFF file is recognised, but its chunks are not part of this model. */
  datatype Opened = Good(info: Info) | Bad(rc: RC) | Aiff

  // ----------------------------------------------------------------- writing

  /** The number of bytes of a frame: one sample for each channel. */
  function BytesPerFrame(chCnt: nat, bits: nat): nat { Pos(chCnt, bits / 8) }

  function FormPart(size: u32): (s: seq<byte>)
    ensures |s| == 12
  {
    RiffId + (PutU32(size) + WaveId)
  }

  function FmtPart(fmt: nat, chCnt: nat, srate: u32, rate: u32, align: nat, bits: nat): (s: seq<byte>)
    requires fmt < 0x1_0000 && chCnt < 0x1_0000 && align < 0x1_0000 && bits < 0x1_0000
    ensures |s| == 24
  {
    FmtId + (PutU32(16) + (PutU16(fmt) + (PutU16(chCnt) + (PutU32(srate)
      + (PutU32(rate) + (PutU16(align) + PutU16(bits)))))))
  }

  function DataPart(size: u32): (s: seq<byte>)
    ensures |s| == 8
  {
    DataId + PutU32(size)
  }

  /** The header for dataN bytes of samples. */
  function Header(chCnt: nat, bits: nat, srate: u32, isFloat: bool, dataN: nat): (s: seq<byte>)
    ensures |s| == HeaderSize
  {
    var align := BytesPerFrame(chCnt, bits);
    FormPart(Wrap32(36 + dataN))
    + (FmtPart(if isFloat then FloatFmt else IntegerFmt, chCnt % 0x1_0000, srate, Wrap32(Pos(srate, align)),
               align % 0x1_0000, bits % 0x1_0000)
       + DataPart(Wrap32(dataN)))
  }

  // ----------------------------------------------------------------- reading

  /** One for an odd number. */
  function Odd(n: nat): (r: nat)
    ensures r <= 1
  {
    if n == 0 then 0 else 1 - Odd(n - 1)
  }

  lemma {:induction false} OddIs(n: nat)
    ensures Odd(n) == n % 2
  {
    if n > 0 { OddIs(n - 1); }
  }

  lemma {:induction false} OddOfSum(a: nat, n: nat)
    requires a % 2 == 0
    ensures Odd(a + n) == Odd(n)
  {
    OddIs(a + n);
    OddIs(n);
  }

  /** The size of a chunk on disk: rounded up to an even number, in 32 bits. */
  function Even(n: u32): u32 { if n == 0xFFFF_FFFF then 0 else n + Odd(n) }

  lemma EvenIs(n: u32)
    ensures Even(n) == Wrap32(n + n % 2)
  {
    OddIs(n);
  }

  /** The file gives 16 bytes of format at offs. Where the data chunk came first, the frame count holds
      its size. */
  function FmtChunk(b: seq<byte>, offs: nat, i: Info): (r: Opened)
    ensures !r.Aiff?
  {
    if offs + 16 > |b| then Bad(ReadFail)
    else
      var chCnt, bits := GetU16(b, offs + 2), GetU16(b, offs + 14);
      var d := BytesPerFrame(chCnt, bits);
      if i.frameCnt != 0 && d == 0 then Bad(DivisionByZero)
      else
        Good(i.(chCnt := chCnt, bits := bits, srate := GetU32(b, offs + 4), isFloat := GetU16(b, offs) == FloatFmt,
                frameCnt := if i.frameCnt != 0 then Steps(i.frameCnt, d) else 0))
  }

  /** The data chunk has n bytes at offs. */
  function DataChunk(n: nat, offs: nat, i: Info): (r: Opened)
    ensures !r.Aiff?
  {
    if i.chCnt == 0 then Good(i.(frameCnt := n, smpByteOffs := offs))
    else
      var d := BytesPerFrame(i.chCnt, i.bits);
      if d == 0 then Bad(DivisionByZero) else Good(i.(frameCnt := Steps(n, d), smpByteOffs := offs))
  }

  /** The chunk of broadcast data has its texts and times at offs. */
  function BextChunk(b: seq<byte>, offs: nat, i: Info): (r: Opened)
    ensures !r.Aiff?
  {
    if offs + BextSize > |b| then Bad(ReadFail) else Good(i.(bext := b[offs..offs + BextSize]))
  }

  function Chunk(b: seq<byte>, id: seq<byte>, n: nat, offs: nat, i: Info): (r: Opened)
    ensures !r.Aiff?
  {
    if id == FmtId then FmtChunk(b, offs, i)
    else if id == DataId then DataChunk(n, offs, i)
    else if id == BextId then BextChunk(b, offs, i)
    else Good(i)
  }

  /** What the chunks from pos up to end say. */
  function Chunks(b: seq<byte>, pos: nat, end: nat, i: Info): (r: Opened)
    ensures !r.Aiff?
    decreases end - pos
  {
    if pos >= end then Good(i)
    else if pos + 8 > |b| then Bad(ReadFail)
    else
      var n := Even(GetU32(b, pos + 4));
      match Chunk(b, b[pos..pos + 4], n, pos + 8, i)
      case Bad(rc) => Bad(rc)
      case Good(i') => Chunks(b, pos + 8 + n, end, i')
  }

  const NoInfo := Info(0, 0, 0, 0, 0, false, [])

  /** The chunks are read as those of an AIFF file: the form says so, or it is a RIFF file whose form type,
      read in the byte order of that, is the same number. */
  predicate IsAiff(b: seq<byte>) {
    && |b| >= 16
    && ((b[..4] == FormId && (b[8..12] == AiffId || b[8..12] == AifcId))
        || (b[..4] == RiffId && (b[8..12] == BackwardAiffId || b[8..12] == BackwardAifcId)))
  }

  function OpenAs(b: seq<byte>): Opened {
    if |b| < 8 then Bad(ReadFail)
    else if IsAiff(b) then Aiff
    else if b[..4] != RiffId then Bad(SyntaxError)
    else if |b| < 16 then Bad(ReadFail)
    else Chunks(b, 12, Even(GetU32(b, 4)), NoInfo)
  }

  /** Opens a file. What is not an AIFF file is tried as a WAV file. */
  method Open(b: seq<byte>) returns (r: Opened)
    ensures r == OpenAs(b)
  {
    if |b| < 8 { return Bad(ReadFail); }
    if b[..4] == FormId && |b| >= 16 && (b[8..12] == AiffId || b[8..12] == AifcId) { return Aiff; }
    if b[..4] != RiffId { return Bad(SyntaxError); }
    if |b| < 16 { return Bad(ReadFail); }
    if b[8..12] == BackwardAiffId || b[8..12] == BackwardAifcId { return Aiff; }
    var fileByteCnt := Even(GetU32(b, 4));
    var pos, info := 12, NoInfo;
    while pos < fileByteCnt
      invariant Chunks(b, pos, fileByteCnt, info) == OpenAs(b)
      decreases fileByteCnt - pos
    {
      if pos + 8 > |b| { return Bad(ReadFail); }
      var chkId, chkByteCnt := b[pos..pos + 4], Even(GetU32(b, pos + 4));
      var offs := pos + 8;
      var c := ReadChunk(b, chkId, chkByteCnt, offs, info);
      if c.Bad? { return c; }
      info := c.info;
      pos := offs + chkByteCnt;
    }
    r := Good(info);
  }

  method ReadChunk(b: seq<byte>, chkId: seq<byte>, chkByteCnt: nat, offs: nat, info: Info) returns (r: Opened)
    ensures r == Chunk(b, chkId, chkByteCnt, offs, info)
  {
    r := Good(info);
    if chkId == FmtId {
      r := FmtChunk(b, offs, info);
    } else if chkId == DataId {
      r := DataChunk(chkByteCnt, offs, info);
    } else if chkId == BextId {
      r := BextChunk(b, offs, info);
    }
  }

  lemma FrameHasBytes(chCnt: nat, bits: nat)
    requires chCnt > 0 && bits >= 8
    ensures BytesPerFrame(chCnt, bits) > 0
  {
  }

  // ----------------------------------------------------------------- reading what was written

  /** A number of two (or four) bytes in front of the rest of a part. */
  lemma Field16(b: seq<byte>, at: nat, x: nat, rest: seq<byte>)
    requires x < 0x1_0000 && at + 2 + |rest| <= |b| && b[at..at + 2 + |rest|] == PutU16(x) + rest
    ensures GetU16(b, at) == x && b[at + 2..at + 2 + |rest|] == rest
  {
    SliceSplits(b, at, PutU16(x), rest);
    GetPutU16(b, at, x);
  }

  lemma Field32(b: seq<byte>, at: nat, x: u32, rest: seq<byte>)
    requires at + 4 + |rest| <= |b| && b[at..at + 4 + |rest|] == PutU32(x) + rest
    ensures GetU32(b, at) == x && b[at + 4..at + 4 + |rest|] == rest
  {
    SliceSplits(b, at, PutU32(x), rest);
    GetPutU32(b, at, x);
  }

  /** The fields of the format part in their order, for any numbers. */
  lemma FmtFields(b: seq<byte>, at: nat, fmt: nat, chCnt: nat, srate: u32, rate: u32, align: nat, bits: nat)
    requires at + 24 <= |b| && fmt < 0x1_0000 && chCnt < 0x1_0000 && align < 0x1_0000 && bits < 0x1_0000
    requires b[at..at + 24] == FmtPart(fmt, chCnt, srate, rate, align, bits)
    ensures b[at..at + 4] == FmtId && GetU32(b, at + 4) == 16 && GetU16(b, at + 8) == fmt
    ensures GetU16(b, at + 10) == chCnt && GetU32(b, at + 12) == srate && GetU16(b, at + 22) == bits
  {
    var p6 := PutU16(align) + PutU16(bits);
    var p5 := PutU32(rate) + p6;
    var p4 := PutU32(srate) + p5;
    var p3 := PutU16(chCnt) + p4;
    var p2 := PutU16(fmt) + p3;
    SliceSplits(b, at, FmtId, PutU32(16) + p2);
    Field32(b, at + 4, 16, p2);
    Field16(b, at + 8, fmt, p3);
    Field16(b, at + 10, chCnt, p4);
    Field32(b, at + 12, srate, p5);
    SliceSplits(b, at + 16, PutU32(rate), p6);
    SliceSplits(b, at + 20, PutU16(align), PutU16(bits));
    GetPutU16(b, at + 22, bits);
  }

  /** The parts of a header, for any parts. */
  lemma HeaderParts(b: seq<byte>, size: u32, fmt: seq<byte>, dataN: u32)
    requires |b| >= HeaderSize && |fmt| == 24
    requires b[..HeaderSize] == FormPart(size) + (fmt + DataPart(dataN))
    ensures b[..4] == RiffId && GetU32(b, 4) == size && b[8..12] == WaveId && b[12..36] == fmt
    ensures b[36..40] == DataId && GetU32(b, 40) == dataN
  {
    assert b[0..44] == b[..44] && b[0..4] == b[..4];
    SliceSplits(b, 0, FormPart(size), fmt + DataPart(dataN));
    SliceSplits(b, 12, fmt, DataPart(dataN));
    SliceSplits(b, 36, DataId, PutU32(dataN));
    SliceSplits(b, 0, RiffId, PutU32(size) + WaveId);
    Field32(b, 4, size, WaveId);
    GetPutU32(b, 40, dataN);
  }

  /** The numbers that a written header holds. */
  ghost predicate HasHeader(b: seq<byte>, chCnt: nat, bits: nat, srate: u32, isFloat: bool, dataN: nat) {
    && |b| >= HeaderSize && b[..4] == RiffId && GetU32(b, 4) == 36 + dataN && b[8..12] == WaveId
    && b[12..16] == FmtId && GetU32(b, 16) == 16 && GetU16(b, 20) == (if isFloat then FloatFmt else IntegerFmt)
    && GetU16(b, 22) == chCnt && GetU32(b, 24) == srate && GetU16(b, 34) == bits
    && b[36..40] == DataId && GetU32(b, 40) == dataN
  }

  lemma HeaderIs(chCnt: nat, bits: nat, srate: u32, isFloat: bool, dataN: nat, rate: u32, align: nat)
    requires chCnt < 0x1_0000 && bits < 0x1_0000 && 36 + dataN < 0x1_0000_0000
    requires align == BytesPerFrame(chCnt, bits) % 0x1_0000
    requires rate == Wrap32(Pos(srate, BytesPerFrame(chCnt, bits)))
    ensures Header(chCnt, bits, srate, isFloat, dataN)
         == FormPart(36 + dataN)
            + (FmtPart(if isFloat then FloatFmt else IntegerFmt, chCnt, srate, rate, align, bits) + DataPart(dataN))
  {
    assert Wrap32(36 + dataN) == 36 + dataN && Wrap32(dataN) == dataN;
    assert chCnt % 0x1_0000 == chCnt && bits % 0x1_0000 == bits;
  }

  lemma PartsHave(b: seq<byte>, chCnt: nat, bits: nat, srate: u32, isFloat: bool, dataN: nat, rate: u32, align: nat)
    requires |b| >= HeaderSize && chCnt < 0x1_0000 && bits < 0x1_0000 && align < 0x1_0000 && 36 + dataN < 0x1_0000_0000
    requires b[..HeaderSize] == FormPart(36 + dataN)
               + (FmtPart(if isFloat then FloatFmt else IntegerFmt, chCnt, srate, rate, align, bits) + DataPart(dataN))
    ensures HasHeader(b, chCnt, bits, srate, isFloat, dataN) == true
  {
    var fmt := if isFloat then FloatFmt else IntegerFmt;
    HeaderParts(b, 36 + dataN, FmtPart(fmt, chCnt, srate, rate, align, bits), dataN);
    FmtFields(b, 12, fmt, chCnt, srate, rate, align, bits);
  }

  /** The numbers of a written header stand where a reader looks for them. */
  lemma HeaderHas(b: seq<byte>, chCnt: nat, bits: nat, srate: u32, isFloat: bool, dataN: nat)
    requires |b| >= HeaderSize && b[..HeaderSize] == Header(chCnt, bits, srate, isFloat, dataN)
    requires chCnt < 0x1_0000 && bits < 0x1_0000 && 36 + dataN < 0x1_0000_0000
    ensures HasHeader(b, chCnt, bits, srate, isFloat, dataN)
  {
    var n := BytesPerFrame(chCnt, bits);
    HeaderIs(chCnt, bits, srate, isFloat, dataN, Wrap32(Pos(srate, n)), n % 0x1_0000);
    PartsHave(b, chCnt, bits, srate, isFloat, dataN, Wrap32(Pos(srate, n)), n % 0x1_0000);
  }

  /** Bytes of a part of a file. */
  ghost predicate StandsAt(b: seq<byte>, at: nat, s: seq<byte>) { at + |s| <= |b| && b[at..at + |s|] == s }

  /** The 44 bytes of a header, by their values and for any numbers; of numbers that are too large the
      low bytes are there. */
  ghost predicate HasBytesOf(b: seq<byte>, chCnt: nat, bits: nat, srate: u32, isFloat: bool, dataN: nat) {
    var align := chCnt * (bits / 8);
    && StandsAt(b, 0, [82, 73, 70, 70]) && LittleEndian(b, 4, 4, 36 + dataN)
    && StandsAt(b, 8, [87, 65, 86, 69]) && StandsAt(b, 12, [102, 109, 116, 32])
    && LittleEndian(b, 16, 4, 16) && LittleEndian(b, 20, 2, if isFloat then 3 else 1)
    && LittleEndian(b, 22, 2, chCnt) && LittleEndian(b, 24, 4, srate) && LittleEndian(b, 28, 4, srate * align)
    && LittleEndian(b, 32, 2, align) && LittleEndian(b, 34, 2, bits)
    && StandsAt(b, 36, [100, 97, 116, 97]) && LittleEndian(b, 40, 4, dataN)
  }

  /** The low bytes of a number are those of its remainder. */
  lemma Low32(b: seq<byte>, at: nat, x: nat)
    requires StandsAt(b, at, PutU32(Wrap32(x))) == true
    ensures LittleEndian(b, at, 4, x) == true
  {
    var r := Wrap32(x);
    GetPutU32(b, at, r);
    WordAt(b, at, r);
    UnitsAre();
    SameDigits(x, r, x / 0x1_0000_0000);
  }

  lemma SameDigits(x: int, r: int, q: int)
    requires x == r + 0x1_0000_0000 * q
    ensures x % 0x100 == r % 0x100 && x / 0x100 % 0x100 == r / 0x100 % 0x100
    ensures x / 0x1_0000 % 0x100 == r / 0x1_0000 % 0x100 && x / 0x100_0000 % 0x100 == r / 0x100_0000 % 0x100
  {
    assert x / 0x100 == r / 0x100 + 0x100_0000 * q;
    assert x / 0x1_0000 == r / 0x1_0000 + 0x1_0000 * q;
    assert x / 0x100_0000 == r / 0x100_0000 + 0x100 * q;
  }

  lemma Low16(b: seq<byte>, at: nat, x: nat)
    requires StandsAt(b, at, PutU16(x % 0x1_0000)) == true
    ensures LittleEndian(b, at, 2, x) == true
  {
    var r := x % 0x1_0000;
    GetPutU16(b, at, r);
    HalfwordAt(b, at, r);
    UnitsAre();
    assert x == r + 0x1_0000 * (x / 0x1_0000);
    assert x / 0x100 == r / 0x100 + 0x100 * (x / 0x1_0000);
  }

  /** Parts that stand behind each other. */
  lemma Behind(b: seq<byte>, at: nat, s: seq<byte>, t: seq<byte>)
    requires StandsAt(b, at, s + t) == true
    ensures StandsAt(b, at, s) == true && StandsAt(b, at + |s|, t) == true
  {
    SliceSplits(b, at, s, t);
  }

  ghost predicate RatesAre(b: seq<byte>, srate: u32, rate: nat, align: nat, bits: nat) {
    && LittleEndian(b, 24, 4, srate) == true && LittleEndian(b, 28, 4, rate) == true
    && LittleEndian(b, 32, 2, align) == true && LittleEndian(b, 34, 2, bits) == true
  }

  lemma RateBytes(b: seq<byte>, srate: u32, rate: nat, align: nat, bits: nat)
    requires StandsAt(b, 24, PutU32(srate) + (PutU32(Wrap32(rate))
                                              + (PutU16(align % 0x1_0000) + PutU16(bits % 0x1_0000)))) == true
    ensures RatesAre(b, srate, rate, align, bits) == true
  {
    var p7 := PutU16(bits % 0x1_0000);
    var p6 := PutU16(align % 0x1_0000) + p7;
    Behind(b, 24, PutU32(srate), PutU32(Wrap32(rate)) + p6);
    Behind(b, 28, PutU32(Wrap32(rate)), p6);
    Behind(b, 32, PutU16(align % 0x1_0000), p7);
    Low32(b, 24, srate);
    Low32(b, 28, rate);
    Low16(b, 32, align);
    Low16(b, 34, bits);
  }

  lemma FmtBytes(b: seq<byte>, fmt: nat, chCnt: nat, srate: u32, rate: nat, align: nat, bits: nat)
    requires fmt < 0x1_0000
    requires StandsAt(b, 12, FmtPart(fmt, chCnt % 0x1_0000, srate, Wrap32(rate), align % 0x1_0000, bits % 0x1_0000))
    ensures StandsAt(b, 12, FmtId) == true && LittleEndian(b, 16, 4, 16) == true && LittleEndian(b, 20, 2, fmt) == true
    ensures LittleEndian(b, 22, 2, chCnt) == true
    ensures RatesAre(b, srate, rate, align, bits) == true
  {
    var p7 := PutU16(bits % 0x1_0000);
    var p6 := PutU16(align % 0x1_0000) + p7;
    var p5 := PutU32(Wrap32(rate)) + p6;
    var p4 := PutU32(srate) + p5;
    var p3 := PutU16(chCnt % 0x1_0000) + p4;
    var p2 := PutU16(fmt) + p3;
    Behind(b, 12, FmtId, PutU32(16) + p2);
    Behind(b, 16, PutU32(16), p2);
    Behind(b, 20, PutU16(fmt), p3);
    Behind(b, 22, PutU16(chCnt % 0x1_0000), p4);
    Low32(b, 16, 16);
    Low16(b, 20, fmt);
    Low16(b, 22, chCnt);
    RateBytes(b, srate, rate, align, bits);
  }

  lemma HeaderBytes(b: seq<byte>, chCnt: nat, bits: nat, srate: u32, isFloat: bool, dataN: nat)
    requires |b| >= 44 && b[..44] == Header(chCnt, bits, srate, isFloat, dataN)
    ensures HasBytesOf(b, chCnt, bits, srate, isFloat, dataN)
  {
    var align := BytesPerFrame(chCnt, bits);
    PosIs(chCnt, bits / 8);
    PosIs(srate, align);
    var fmt := if isFloat then FloatFmt else IntegerFmt;
    var p2 := DataPart(Wrap32(dataN));
    var p1 := FmtPart(fmt, chCnt % 0x1_0000, srate, Wrap32(Pos(srate, align)), align % 0x1_0000, bits % 0x1_0000);
    assert b[0..44] == b[..44];
    Behind(b, 0, FormPart(Wrap32(36 + dataN)), p1 + p2);
    Behind(b, 12, p1, p2);
    Behind(b, 0, RiffId, PutU32(Wrap32(36 + dataN)) + WaveId);
    Behind(b, 4, PutU32(Wrap32(36 + dataN)), WaveId);
    Behind(b, 36, DataId, PutU32(Wrap32(dataN)));
    Low32(b, 4, 36 + dataN);
    FmtBytes(b, fmt, chCnt, srate, Pos(srate, align), align, bits);
    Low32(b, 40, dataN);
  }

  lemma ChunksStep(b: seq<byte>, pos: nat, end: nat, i: Info, id: seq<byte>, n: nat, j: Info)
    requires pos < end && pos + 8 <= |b| && b[pos..pos + 4] == id && Even(GetU32(b, pos + 4)) == n
    requires Chunk(b, id, n, pos + 8, i) == Good(j)
    ensures Chunks(b, pos, end, i) == Chunks(b, pos + 8 + n, end, j)
  {
  }

  /** A chunk with a body of even size stands in a file. */
  ghost predicate ChunkAt(b: seq<byte>, pos: nat, id: seq<byte>, body: seq<byte>) {
    && pos + 8 + |body| <= |b| && b[pos..pos + 4] == id
    && Even(GetU32(b, pos + 4)) == |body| && b[pos + 8..pos + 8 + |body|] == body
  }

  lemma RiffIsRead(b: seq<byte>)
    requires |b| >= 16 && b[..4] == RiffId && !IsAiff(b)
    ensures OpenAs(b) == Chunks(b, 12, Even(GetU32(b, 4)), NoInfo)
  {
  }

  /** What is left to the reading of AIFF files, by the bytes: FORM with AIFF or AIFC, or RIFF with one of
      these two backwards. */
  lemma AiffExactlyWhen(b: seq<byte>)
    ensures OpenAs(b) == Aiff <==>
            && |b| >= 16
            && if b[..4] == [70, 79, 82, 77] then b[8..12] == [65, 73, 70, 70] || b[8..12] == [65, 73, 70, 67]
               else b[..4] == [82, 73, 70, 70] && (b[8..12] == [70, 70, 73, 65] || b[8..12] == [67, 70, 73, 65])
  {
    assert FormId[0] == 70 && RiffId[0] == 82;
  }

  lemma WaveIsNotAiff(b: seq<byte>)
    requires |b| >= 16 && b[..4] == RiffId && b[8..12] == WaveId
    ensures IsAiff(b) == false
  {
    assert b[..4][0] == RiffId[0] != FormId[0];
    assert b[8..12][0] == WaveId[0];
  }

  /** The format is read from the body of its chunk. */
  lemma FmtFromBody(b: seq<byte>, pos: nat, fmt: seq<byte>, i: Info)
    requires |fmt| == 16 && ChunkAt(b, pos, FmtId, fmt)
    ensures Chunk(b, FmtId, 16, pos + 8, i) == FmtChunk(fmt, 0, i)
  {
    var at := pos + 8;
    var body: seq<byte> := b[at..at + 16];
    assert forall k :: 0 <= k < 16 ==> body[k] == b[at + k];
  }

  /** The 346 bytes of a chunk with broadcast data are kept. */
  lemma BextFromBody(b: seq<byte>, pos: nat, bext: seq<byte>, i: Info)
    requires |bext| == 346 && ChunkAt(b, pos, [98, 101, 120, 116], bext)
    ensures Chunk(b, [98, 101, 120, 116], 346, pos + 8, i) == Good(i.(bext := bext))
  {
    var id: seq<byte> := [98, 101, 120, 116];
    assert id[0] != FmtId[0] && id[0] != DataId[0] && BextSize == 346;
  }

  /** Two files that differ only in the order of their format and data chunks open alike, but for the
      place of the samples. */
  lemma ChunkOrder(b: seq<byte>, c: seq<byte>, fmt: seq<byte>, data: seq<byte>)
    requires |b| == |c| == HeaderSize + |data| && b[..4] == c[..4] == RiffId && !IsAiff(b) && !IsAiff(c)
    requires Even(GetU32(b, 4)) == Even(GetU32(c, 4)) == 36 + |data|
    requires |fmt| == 16 && GetU16(fmt, 2) > 0 && GetU16(fmt, 14) >= 8 && |data| > 0
    requires ChunkAt(b, 12, FmtId, fmt) && ChunkAt(b, 36, DataId, data)
    requires ChunkAt(c, 12, DataId, data) && ChunkAt(c, 20 + |data|, FmtId, fmt)
    ensures OpenAs(b).Good? && OpenAs(b).info.smpByteOffs == 44
    ensures OpenAs(c) == Good(OpenAs(b).info.(smpByteOffs := 20))
  {
    RiffIsRead(b);
    RiffIsRead(c);
    FmtThenData(b, fmt, data);
    DataThenFmt(c, fmt, data);
  }

  /** What the two chunks say, with the samples at offs. */
  function Found(fmt: seq<byte>, n: nat, offs: nat): Info
    requires |fmt| == 16 && BytesPerFrame(GetU16(fmt, 2), GetU16(fmt, 14)) > 0
  {
    var chCnt, bits := GetU16(fmt, 2), GetU16(fmt, 14);
    Info(chCnt, bits, GetU32(fmt, 4), Steps(n, BytesPerFrame(chCnt, bits)), offs, GetU16(fmt, 0) == FloatFmt, [])
  }

  lemma FmtThenData(b: seq<byte>, fmt: seq<byte>, data: seq<byte>)
    requires |b| == HeaderSize + |data| && |data| > 0
    requires |fmt| == 16 && GetU16(fmt, 2) > 0 && GetU16(fmt, 14) >= 8
    requires ChunkAt(b, 12, FmtId, fmt) && ChunkAt(b, 36, DataId, data)
    ensures BytesPerFrame(GetU16(fmt, 2), GetU16(fmt, 14)) > 0
    ensures Chunks(b, 12, 36 + |data|, NoInfo) == Good(Found(fmt, |data|, 44))
  {
    FrameHasBytes(GetU16(fmt, 2), GetU16(fmt, 14));
    assert DataId[0] != FmtId[0];
    var i := FmtChunk(fmt, 0, NoInfo).info;
    FmtFromBody(b, 12, fmt, NoInfo);
    ChunksStep(b, 12, 36 + |data|, NoInfo, FmtId, 16, i);
    ChunksStep(b, 36, 36 + |data|, i, DataId, |data|, Found(fmt, |data|, 44));
  }

  lemma DataThenFmt(b: seq<byte>, fmt: seq<byte>, data: seq<byte>)
    requires |b| == HeaderSize + |data| && |data| > 0
    requires |fmt| == 16 && GetU16(fmt, 2) > 0 && GetU16(fmt, 14) >= 8
    requires ChunkAt(b, 12, DataId, data) && ChunkAt(b, 20 + |data|, FmtId, fmt)
    ensures BytesPerFrame(GetU16(fmt, 2), GetU16(fmt, 14)) > 0
    ensures Chunks(b, 12, 36 + |data|, NoInfo) == Good(Found(fmt, |data|, 20))
  {
    FrameHasBytes(GetU16(fmt, 2), GetU16(fmt, 14));
    assert DataId[0] != FmtId[0];
    var j := NoInfo.(frameCnt := |data|, smpByteOffs := 20);
    ChunksStep(b, 12, 36 + |data|, NoInfo, DataId, |data|, j);
    FmtFromBody(b, 20 + |data|, fmt, j);
    ChunksStep(b, 20 + |data|, 36 + |data|, j, FmtId, 16, Found(fmt, |data|, 20));
  }

  datatype Part = Part(id: seq<byte>, body: seq<byte>)

  predicate IsOther(id: seq<byte>) { id != FmtId && id != DataId && id != BextId }

  /** Chunks of other kinds stand in a file one behind the other, up to next. */
  ghost predicate OthersAt(b: seq<byte>, pos: nat, ps: seq<Part>, next: nat)
    decreases |ps|
  {
    && pos <= next
    && if ps == [] then pos == next
       else ChunkAt(b, pos, ps[0].id, ps[0].body) == true && IsOther(ps[0].id) == true
            && OthersAt(b, pos + 8 + |ps[0].body|, ps[1..], next)
  }

  /** The chunks from pos on say r. */
  ghost predicate Say(b: seq<byte>, pos: nat, end: nat, i: Info, r: Opened) { Chunks(b, pos, end, i) == r }

  lemma OtherStep(b: seq<byte>, pos: nat, end: nat, i: Info, id: seq<byte>, body: seq<byte>, r: Opened)
    requires ChunkAt(b, pos, id, body) == true && IsOther(id) == true && pos < end
    requires Say(b, pos + 8 + |body|, end, i, r) == true
    ensures Say(b, pos, end, i, r) == true
  {
    ChunksStep(b, pos, end, i, id, |body|, i);
  }

  lemma {:induction false} OthersAreSkipped(b: seq<byte>, pos: nat, ps: seq<Part>, next: nat, end: nat, i: Info,
                                            r: Opened)
    requires OthersAt(b, pos, ps, next) && next <= end && Say(b, next, end, i, r) == true
    ensures pos <= next && Say(b, pos, end, i, r) == true
    decreases |ps|
  {
    if ps != [] {
      OthersAreSkipped(b, pos + 8 + |ps[0].body|, ps[1..], next, end, i, r);
      OtherStep(b, pos, end, i, ps[0].id, ps[0].body, r);
    }
  }

  ghost predicate FmtSays(fmt: seq<byte>, i: Info)
    requires |fmt| == 16
  {
    FmtChunk(fmt, 0, NoInfo) == Good(i)
  }

  ghost predicate DataSays(n: nat, offs: nat, i: Info, j: Info) { DataChunk(n, offs, i) == Good(j) }

  /** The body of a format chunk, with a frame size. */
  predicate IsFmt(fmt: seq<byte>) { |fmt| == 16 && GetU16(fmt, 2) > 0 && GetU16(fmt, 14) >= 8 }

  lemma FmtStep(b: seq<byte>, p: nat, next: nat, end: nat, fmt: seq<byte>, i: Info, r: Opened)
    requires IsFmt(fmt) == true && ChunkAt(b, p, FmtId, fmt) == true && FmtSays(fmt, i) == true
    requires p < end && next == p + 24 && Say(b, next, end, i, r) == true
    ensures Say(b, p, end, NoInfo, r) == true
  {
    FmtFromBody(b, p, fmt, NoInfo);
    ChunksStep(b, p, end, NoInfo, FmtId, 16, i);
  }

  lemma DataStep(b: seq<byte>, q: nat, next: nat, end: nat, data: seq<byte>, i: Info, j: Info, r: Opened)
    requires ChunkAt(b, q, DataId, data) == true && q < end && DataSays(|data|, q + 8, i, j) == true
    requires next == q + 8 + |data| && Say(b, next, end, j, r) == true
    ensures Say(b, q, end, i, r) == true
  {
    assert DataId[0] != FmtId[0];
    ChunksStep(b, q, end, i, DataId, |data|, j);
  }

  lemma EndStep(b: seq<byte>, end: nat, j: Info)
    ensures Say(b, end, end, j, Good(j)) == true
  {
  }

  predicate IsRiff(b: seq<byte>, end: nat) {
    |b| >= 16 && b[..4] == [82, 73, 70, 70] && !IsAiff(b) && Even(GetU32(b, 4)) == end
  }

  /** Opening a file finds this format, with n bytes of samples at offs. */
  ghost predicate OpenFinds(b: seq<byte>, fmt: seq<byte>, n: nat, offs: nat) {
    IsFmt(fmt) && FrameSize(fmt) > 0 && OpenAs(b) == Good(Found(fmt, n, offs))
  }

  function FrameSize(fmt: seq<byte>): nat
    requires |fmt| == 16
  {
    BytesPerFrame(GetU16(fmt, 2), GetU16(fmt, 14))
  }

  /** The numbers in a format chunk: the channels, rate and bits where they stand, and the frames by division. */
  lemma FoundIs(fmt: seq<byte>, n: nat, offs: nat, chCnt: nat, srate: u32, bits: nat)
    requires IsFmt(fmt) && chCnt < 0x1_0000 && bits < 0x1_0000
    requires LittleEndian(fmt, 2, 2, chCnt) && LittleEndian(fmt, 4, 4, srate) && LittleEndian(fmt, 14, 2, bits)
    ensures FrameSize(fmt) == chCnt * (bits / 8) > 0
    ensures var i := Found(fmt, n, offs);
            && i.chCnt == chCnt && i.srate == srate && i.bits == bits && i.smpByteOffs == offs
            && i.frameCnt == n / (chCnt * (bits / 8)) && i.isFloat == (fmt[0] == 3 && fmt[1] == 0)
  {
    HalfwordAt(fmt, 2, chCnt);
    WordAt(fmt, 4, srate);
    HalfwordAt(fmt, 14, bits);
    FrameHasBytes(chCnt, bits);
    PosIs(chCnt, bits / 8);
    StepsIs(n, BytesPerFrame(chCnt, bits));
  }

  lemma Opens(b: seq<byte>, before: seq<Part>, p: nat, end: nat, i: Info, j: Info, fmt: seq<byte>, n: nat, offs: nat)
    requires IsRiff(b, end) && OthersAt(b, 12, before, p) == true && p <= end
    requires Say(b, p, end, NoInfo, Good(j)) == true
    requires IsFmt(fmt) && FmtSays(fmt, i) && DataSays(n, offs, i, j)
    ensures OpenFinds(b, fmt, n, offs) == true
  {
    OthersAreSkipped(b, 12, before, p, end, NoInfo, Good(j));
    RiffIsRead(b);
    FrameHasBytes(GetU16(fmt, 2), GetU16(fmt, 14));
  }

  lemma FoundStep(fmt: seq<byte>, n: nat, offs: nat) returns (i: Info, j: Info)
    requires IsFmt(fmt)
    ensures FmtSays(fmt, i) == true && DataSays(n, offs, i, j) == true
  {
    FrameHasBytes(GetU16(fmt, 2), GetU16(fmt, 14));
    i, j := FmtChunk(fmt, 0, NoInfo).info, Found(fmt, n, offs);
  }

  lemma SamplesFound(b: seq<byte>, s: nat, between: seq<Part>, q: nat, data: seq<byte>, r: nat, behind: seq<Part>,
                     end: nat, i: Info, j: Info)
    requires OthersAt(b, s, between, q) == true && OthersAt(b, r, behind, end) == true
    requires ChunkAt(b, q, DataId, data) == true && r == q + 8 + |data| && DataSays(|data|, q + 8, i, j) == true
    ensures s < end && Say(b, s, end, i, Good(j)) == true
  {
    EndStep(b, end, j);
    OthersAreSkipped(b, r, behind, end, end, j, Good(j));
    DataStep(b, q, r, end, data, i, j, Good(j));
    OthersAreSkipped(b, s, between, q, end, i, Good(j));
  }

  lemma FormatFound(b: seq<byte>, p: nat, fmt: seq<byte>, between: seq<Part>, q: nat, data: seq<byte>, r: nat,
                    behind: seq<Part>, end: nat, i: Info, j: Info)
    requires ChunkAt(b, p, FmtId, fmt) == true && IsFmt(fmt) == true && FmtSays(fmt, i) == true
    requires OthersAt(b, p + 24, between, q) == true && OthersAt(b, r, behind, end) == true
    requires ChunkAt(b, q, DataId, data) == true && r == q + 8 + |data| && DataSays(|data|, q + 8, i, j) == true
    ensures p < end && Say(b, p, end, NoInfo, Good(j)) == true
  {
    SamplesFound(b, p + 24, between, q, data, r, behind, end, i, j);
    FmtStep(b, p, p + 24, end, fmt, i, Good(j));
  }

  /** A file with its format in front of its samples opens the same with any other chunks before, between
      and behind them. */
  lemma OtherChunks(b: seq<byte>, before: seq<Part>, p: nat, fmt: seq<byte>, between: seq<Part>, q: nat,
                    data: seq<byte>, r: nat, behind: seq<Part>, end: nat)
    requires IsRiff(b, end) == true && IsFmt(fmt) == true
    requires OthersAt(b, 12, before, p) == true && ChunkAt(b, p, FmtId, fmt) == true
    requires OthersAt(b, p + 24, between, q) == true && ChunkAt(b, q, DataId, data) == true
    requires r == q + 8 + |data| && OthersAt(b, r, behind, end) == true
    ensures OpenFinds(b, fmt, |data|, q + 8) == true
  {
    var i, j := FoundStep(fmt, |data|, q + 8);
    FormatFound(b, p, fmt, between, q, data, r, behind, end, i, j);
    Opens(b, before, p, end, i, j, fmt, |data|, q + 8);
  }

  /** The frame count that opening finds: the data size rounded up to an even number, divided by the
      size of a frame. */
  function FramesFound(dataN: nat, bpf: nat): nat
    requires bpf > 0
  {
    Steps(dataN + Odd(dataN), bpf)
  }

  /** Opening a file with such a header gives back the format; and the place of the samples, unless
      there are none. */
  lemma OpenWritten(b: seq<byte>, chCnt: nat, w: nat, srate: u32, isFloat: bool, dataN: nat)
    requires IsWidth(w) && 0 < chCnt && 37 + dataN < 0x1_0000_0000
    requires HasHeader(b, chCnt, 8 * w, srate, isFloat, dataN)
    ensures Pos(chCnt, w) > 0
    ensures OpenAs(b) == Good(Info(chCnt, 8 * w, srate, FramesFound(dataN, Pos(chCnt, w)),
                                   if dataN == 0 then 0 else HeaderSize, isFloat, []))
  {
    var i := Info(chCnt, 8 * w, srate, 0, 0, isFloat, []);
    FrameHasBytes(chCnt, 8 * w);
    FmtWritten(b, chCnt, w, srate, isFloat, dataN);
    ChunksPlaced(b, chCnt, 8 * w, srate, isFloat, dataN);
    var j := if dataN == 0 then i else i.(frameCnt := FramesFound(dataN, Pos(chCnt, w)), smpByteOffs := HeaderSize);
    if dataN > 0 { DataWritten(b, dataN, w, i); }
    ChunksWritten(b, Even(dataN), i, j);
  }

  lemma ChunksPlaced(b: seq<byte>, chCnt: nat, bits: nat, srate: u32, isFloat: bool, dataN: nat)
    requires HasHeader(b, chCnt, bits, srate, isFloat, dataN) && 37 + dataN < 0x1_0000_0000
    ensures Placed(b, Even(dataN)) && OpenAs(b) == Chunks(b, 12, 36 + Even(dataN), NoInfo)
    ensures Even(dataN) == dataN + Odd(dataN) && (Even(dataN) == 0 <==> dataN == 0)
  {
    EvenSizes(dataN);
    WaveIsNotAiff(b);
    RiffIsRead(b);
  }

  /** A format chunk of 16 bytes is followed by a data chunk of n bytes. */
  ghost predicate Placed(b: seq<byte>, n: nat) {
    && |b| >= HeaderSize && b[12..16] == FmtId && Even(GetU32(b, 16)) == 16
    && b[36..40] == DataId && Even(GetU32(b, 40)) == n
  }

  lemma EvenSizes(dataN: nat)
    requires 37 + dataN < 0x1_0000_0000
    ensures Even(36 + dataN) == 36 + Even(dataN) && Even(16) == 16
    ensures Even(dataN) == dataN + Odd(dataN) && (Even(dataN) == 0 <==> dataN == 0)
  {
    OddOfSum(36, dataN);
    OddIs(16);
  }

  /** The two chunks of a written file, for any results. */
  lemma ChunksWritten(b: seq<byte>, n: nat, i: Info, j: Info)
    requires Placed(b, n)
    requires Chunk(b, FmtId, 16, 20, NoInfo) == Good(i)
    requires if n > 0 then Chunk(b, DataId, n, 44, i) == Good(j) else j == i
    ensures Chunks(b, 12, 36 + n, NoInfo) == Good(j)
  {
    ChunksStep(b, 12, 36 + n, NoInfo, FmtId, 16, i);
    if n > 0 {
      ChunksStep(b, 36, 36 + n, i, DataId, n, j);
      assert Chunks(b, 44 + n, 36 + n, j) == Good(j);
    } else {
      assert Chunks(b, 36, 36, i) == Good(i);
    }
  }

  lemma DataWritten(b: seq<byte>, dataN: nat, w: nat, i: Info)
    requires IsWidth(w) && i.bits == 8 * w && i.chCnt > 0 && dataN + 1 < 0x1_0000_0000
    ensures Pos(i.chCnt, w) > 0
    ensures Chunk(b, DataId, Even(dataN), 44, i)
            == Good(i.(frameCnt := FramesFound(dataN, Pos(i.chCnt, w)), smpByteOffs := HeaderSize))
  {
    assert DataId[0] != FmtId[0];
  }

  lemma FmtWritten(b: seq<byte>, chCnt: nat, w: nat, srate: u32, isFloat: bool, dataN: nat)
    requires IsWidth(w) && 0 < chCnt && HasHeader(b, chCnt, 8 * w, srate, isFloat, dataN)
    ensures Chunk(b, FmtId, 16, 20, NoInfo) == Good(Info(chCnt, 8 * w, srate, 0, 0, isFloat, []))
  {
  }

  /** The number of bytes of frames of samples, as the source computes it. */
  lemma DataSize(frames: nat, chCnt: nat, w: nat)
    ensures Pos(frames, Pos(chCnt, w)) == chCnt * frames * w && Pos(chCnt, w) == chCnt * w
  {
    PosIs(chCnt, w);
    PosIs(frames, chCnt * w);
    assert chCnt * frames * w == frames * (chCnt * w);
  }

  /** Of an odd number of one-byte frames one too many is found; else the count is right. */
  lemma FramesFoundIs(frames: nat, bpf: nat)
    requires bpf > 0
    ensures FramesFound(Pos(frames, bpf), bpf) == if bpf == 1 && frames % 2 == 1 then frames + 1 else frames
  {
    OddIs(frames);
    if bpf == 1 {
      PosIs(frames, 1);
      StepsIs(frames + Odd(frames), 1);
    } else {
      StepsAre(frames, bpf, Odd(Pos(frames, bpf)));
    }
  }

  /** The frame count comes back exactly when the file is not a mono file of an odd number of samples of
      one byte. */
  lemma FramesFoundExactlyWhen(frames: nat, bpf: nat)
    requires bpf > 0
    ensures FramesFound(Pos(frames, bpf), bpf) == frames <==> !(bpf == 1 && frames % 2 == 1)
  {
    FramesFoundIs(frames, bpf);
  }
}
