/** The write-ahead log writer (wal/wal.go). Records are numbered by Append,
    serialised with a CRC-32C checksum, framed as
    `[u32 length LE][u32 checksum LE][data]` and appended to the active log
    file, which is rolled over to a fresh file named after the record's
    sequence number once it holds more than 50 bytes.

    The file system is a value: the log files' bytes, the active file, its
    size, and the files passed to os.Create in order. */
module Wal {
  import opened Wrappers

  type byte = b: int | 0 <= b < 0x100
  type uint32 = x: int | 0 <= x < 0x1_0000_0000

  /** firstSeq: the number in the name of the first log file. */
  const FIRST_SEQ: nat := 1
  /** maxFileByteSize: a log file holding more than this many bytes is rolled over. */
  const MAX_FILE_BYTE_SIZE: nat := 50
  /** The record header: length and checksum, four bytes each. */
  const HEADER_SIZE: nat := 8

  /** RecordLog: the sequence number Append stamps on it and the content bytes. */
  datatype RecordLog = RecordLog(seqNo: nat, content: seq<byte>)

  /** rawRecord: what Append hands to the write loop. */
  datatype RawRecord = RawRecord(seqNo: nat, data: seq<byte>, checkSum: uint32)

  // ---------------------------------------------------------------------
  // CRC-32C (Castagnoli), bit by bit in its reflected form: polynomial
  // 0x82F63B78, register preset to all ones, result complemented, as
  // section 12.1 of RFC 3720 describes it.

  /** One step of the reflected shift register. */
  function CrcStep(c: bv32): bv32
  {
    if c & 1 == 1 then (c >> 1) ^ 0x82F6_3B78 else c >> 1
  }

  /** The register after feeding one byte into register value `c`: the byte
      goes into the low bits, then eight steps. */
  function CrcByte(c: bv32, b: byte): bv32
  {
    var x := c ^ (b as bv32);
    CrcStep(CrcStep(CrcStep(CrcStep(CrcStep(CrcStep(CrcStep(CrcStep(x))))))))
  }

  /** The register after feeding `data` into register value `c`. */
  function CrcUpdate(c: bv32, data: seq<byte>): bv32
    decreases |data|
  {
    if |data| == 0 then c
    else CrcUpdate(CrcByte(c, data[0]), data[1..])
  }

  /** crc32.Checksum(data, crc32.MakeTable(crc32.Castagnoli)). */
  function Crc32c(data: seq<byte>): uint32
  {
    (CrcUpdate(0xFFFF_FFFF, data) ^ 0xFFFF_FFFF) as int
  }

  /** Bytes 1-3 of the check input through the byte step. */
  lemma CheckValueBytes1()
    ensures CrcByte(0xFFFFFFFF, 0x31) == 0x6F0A661C
    ensures CrcByte(0x6F0A661C, 0x32) == 0x8CAA3B9F
    ensures CrcByte(0x8CAA3B9F, 0x33) == 0xEF84D04D
  {
    assert (0x31 as byte) as bv32 == 0x31;
    assert CrcStep(CrcStep(CrcStep(CrcStep(CrcStep(CrcStep(CrcStep(CrcStep(0xFFFFFFCE)))))))) == 0x6F0A661C;
    assert (0x32 as byte) as bv32 == 0x32;
    assert CrcStep(CrcStep(CrcStep(CrcStep(CrcStep(CrcStep(CrcStep(CrcStep(0x6F0A662E)))))))) == 0x8CAA3B9F;
    assert (0x33 as byte) as bv32 == 0x33;
    assert CrcStep(CrcStep(CrcStep(CrcStep(CrcStep(CrcStep(CrcStep(CrcStep(0x8CAA3BAC)))))))) == 0xEF84D04D;
  }

  /** Bytes 4-6 of the check input through the byte step. */
  lemma CheckValueBytes2()
    ensures CrcByte(0xEF84D04D, 0x34) == 0x09C50B11
    ensures CrcByte(0x09C50B11, 0x35) == 0xE72EDCCA
    ensures CrcByte(0xE72EDCCA, 0x36) == 0xBECA8E79
  {
    assert (0x34 as byte) as bv32 == 0x34;
    assert CrcStep(CrcStep(CrcStep(CrcStep(CrcStep(CrcStep(CrcStep(CrcStep(0xEF84D079)))))))) == 0x09C50B11;
    assert (0x35 as byte) as bv32 == 0x35;
    assert CrcStep(CrcStep(CrcStep(CrcStep(CrcStep(CrcStep(CrcStep(CrcStep(0x09C50B24)))))))) == 0xE72EDCCA;
    assert (0x36 as byte) as bv32 == 0x36;
    assert CrcStep(CrcStep(CrcStep(CrcStep(CrcStep(CrcStep(CrcStep(CrcStep(0xE72EDCFC)))))))) == 0xBECA8E79;
  }

  /** Bytes 7-9 of the check input through the byte step. */
  lemma CheckValueBytes3()
    ensures CrcByte(0xBECA8E79, 0x37) == 0xEDBD6815
    ensures CrcByte(0xEDBD6815, 0x38) == 0x9F787F65
    ensures CrcByte(0x9F787F65, 0x39) == 0x1CF96D7C
  {
    assert (0x37 as byte) as bv32 == 0x37;
    assert CrcStep(CrcStep(CrcStep(CrcStep(CrcStep(CrcStep(CrcStep(CrcStep(0xBECA8E4E)))))))) == 0xEDBD6815;
    assert (0x38 as byte) as bv32 == 0x38;
    assert CrcStep(CrcStep(CrcStep(CrcStep(CrcStep(CrcStep(CrcStep(CrcStep(0xEDBD682D)))))))) == 0x9F787F65;
    assert (0x39 as byte) as bv32 == 0x39;
    assert CrcStep(CrcStep(CrcStep(CrcStep(CrcStep(CrcStep(CrcStep(CrcStep(0x9F787F5C)))))))) == 0x1CF96D7C;
  }

  /** The standard check value of CRC-32C: the nine ASCII bytes "123456789"
      give 0xE3069283. */
  lemma Crc32cCheckValue()
    ensures Crc32c([0x31, 0x32, 0x33, 0x34, 0x35, 0x36, 0x37, 0x38, 0x39]) == 0xE306_9283
  {
    var data: seq<byte> := [0x31, 0x32, 0x33, 0x34, 0x35, 0x36, 0x37, 0x38, 0x39];
    CheckValueBytes1();
    CheckValueBytes2();
    CheckValueBytes3();
    assert CrcUpdate(0x1CF96D7C, data[9..]) == 0x1CF96D7C;
    assert CrcUpdate(0x9F787F65, data[8..]) == 0x1CF96D7C;
    assert CrcUpdate(0xEDBD6815, data[7..]) == 0x1CF96D7C;
    assert CrcUpdate(0xBECA8E79, data[6..]) == 0x1CF96D7C;
    assert CrcUpdate(0xE72EDCCA, data[5..]) == 0x1CF96D7C;
    assert CrcUpdate(0x09C50B11, data[4..]) == 0x1CF96D7C;
    assert CrcUpdate(0xEF84D04D, data[3..]) == 0x1CF96D7C;
    assert CrcUpdate(0x8CAA3B9F, data[2..]) == 0x1CF96D7C;
    assert CrcUpdate(0x6F0A661C, data[1..]) == 0x1CF96D7C;
    assert CrcUpdate(0xFFFFFFFF, data[0..]) == 0x1CF96D7C;
  }

  /** Feeding bytes in two writes leaves the register as one write would:
      hash.Hash32's Write may be split anywhere. serializeLog makes a single
      Write, so no other proof here needs this; it is a standalone property
      of CrcUpdate, the register Crc32c runs. */
  lemma {:induction false} CrcUpdateAppend(c: bv32, a: seq<byte>, b: seq<byte>)
    ensures CrcUpdate(c, a + b) == CrcUpdate(CrcUpdate(c, a), b)
    decreases |a|
  {
    if |a| > 0 {
      assert (a + b)[1..] == a[1..] + b;
      CrcUpdateAppend(CrcByte(c, a[0]), a[1..], b);
    } else {
      assert a + b == b;
    }
  }

  // ---------------------------------------------------------------------
  // serializeLog (wal/wal.go:94-106)

  /** The CRC is reset before each record, so the checksum is that of the
      record's data alone. */
  function Serialize(log: RecordLog): RawRecord
  {
    RawRecord(log.seqNo, log.content, Crc32c(log.content))
  }

  /** What a reader finds for a serialised log: a frame with the content's
      length, a checksum that is the CRC-32C of the content read back, and
      the content itself; the record's number plays no part in it. */
  lemma SerializeRoundTrip(log: RecordLog, rest: seq<byte>)
    requires |log.content| < 0x1_0000_0000
    ensures ParseFrame(Encode(Serialize(log)) + rest) ==
      Some((Frame(|log.content|, Crc32c(log.content), log.content), rest))
  {
    ParseEncode(Serialize(log), rest);
    U32Small(|log.content|);
  }

  /** The raw records of `logs` numbered from `start` upward, in order.
      The ensures read the body element by element; they are there so that
      callers get these facts without unfolding the comprehension. */
  function Records(start: nat, logs: seq<seq<byte>>): (rs: seq<RawRecord>)
    ensures |rs| == |logs|
    ensures forall i :: 0 <= i < |logs| ==>
      rs[i].seqNo == start + i && rs[i].data == logs[i] && rs[i].checkSum == Crc32c(logs[i])
  {
    seq(|logs|, i requires 0 <= i < |logs| => Serialize(RecordLog(start + i, logs[i])))
  }

  lemma {:induction false} RecordsPrefix(start: nat, logs: seq<seq<byte>>, w: nat)
    requires w <= |logs|
    ensures Records(start, logs)[..w] == Records(start, logs[..w])
  {
  }

  lemma {:induction false} RecordsSnoc(start: nat, logs: seq<seq<byte>>, x: seq<byte>)
    ensures Records(start, logs + [x]) == Records(start, logs) + [Serialize(RecordLog(start + |logs|, x))]
  {
    assert (logs + [x])[..|logs|] == logs;
  }

  /** Appending a log adds its record at the end of the records not yet
      written, and leaves the written prefix alone. */
  lemma {:induction false} RecordsAppend(logs: seq<seq<byte>>, x: seq<byte>, w: nat)
    requires w <= |logs|
    ensures Records(FIRST_SEQ, logs + [x])[w..] ==
      Records(FIRST_SEQ, logs)[w..] + [Serialize(RecordLog(FIRST_SEQ + |logs|, x))]
    ensures (logs + [x])[..w] == logs[..w]
  {
    RecordsSnoc(FIRST_SEQ, logs, x);
  }

  // ---------------------------------------------------------------------
  // Record framing (wal/wal.go:140-150)

  /** binary.LittleEndian.PutUint32. */
  function U32LE(x: uint32): (b: seq<byte>)
    ensures |b| == 4
  {
    [x % 0x100, x / 0x100 % 0x100, x / 0x100 / 0x100 % 0x100, x / 0x100 / 0x100 / 0x100 % 0x100]
  }

  /** binary.LittleEndian.Uint32. */
  function U32FromLE(b: seq<byte>): uint32
    requires |b| == 4
  {
    b[0] as int + 0x100 * (b[1] as int + 0x100 * (b[2] as int + 0x100 * (b[3] as int)))
  }

  /** One byte split off the low end of a number. */
  lemma {:induction false} ByteSplit(lo: int, hi: int)
    requires 0 <= lo < 0x100 && 0 <= hi
    ensures (lo + 0x100 * hi) % 0x100 == lo && (lo + 0x100 * hi) / 0x100 == hi
  {
  }

  /** Decoding the four bytes PutUint32 wrote gives back the number. */
  lemma {:induction false} U32RoundTrip(x: uint32)
    ensures U32FromLE(U32LE(x)) == x
  {
    var x1 := x / 0x100;
    var x2 := x1 / 0x100;
    var x3 := x2 / 0x100;
    assert x == x % 0x100 + 0x100 * x1;
    assert x1 == x1 % 0x100 + 0x100 * x2;
    assert x2 == x2 % 0x100 + 0x100 * x3;
    assert x3 < 0x100;
  }

  /** Encoding the number four bytes decode to gives back the bytes. */
  lemma {:induction false} U32RoundTripBytes(b: seq<byte>)
    requires |b| == 4
    ensures U32LE(U32FromLE(b)) == b
  {
    var x2 := b[2] as int + 0x100 * (b[3] as int);
    var x1 := b[1] as int + 0x100 * x2;
    var x := b[0] as int + 0x100 * x1;
    ByteSplit(b[0], x1);
    ByteSplit(b[1], x2);
    ByteSplit(b[2], b[3]);
    assert b[3] as int % 0x100 == b[3];
  }

  /** The 8-byte header: `uint32(len(r.data))`, which wraps at 2^32, then the checksum. */
  function Header(r: RawRecord): seq<byte>
  {
    U32LE(|r.data| % 0x1_0000_0000) + U32LE(r.checkSum)
  }

  /** The bytes writeRawRecord hands to the buffered writer for `r`. */
  function Encode(r: RawRecord): (b: seq<byte>)
    ensures |b| == HEADER_SIZE + |r.data|
  {
    Header(r) + r.data
  }

  /** The encodings of `rs`, one after the other. */
  function EncodeAll(rs: seq<RawRecord>): seq<byte>
  {
    if rs == [] then [] else EncodeAll(rs[..|rs| - 1]) + Encode(rs[|rs| - 1])
  }

  /** A record read back from a log: its length field, checksum field and data. */
  datatype Frame = Frame(length: uint32, checkSum: uint32, data: seq<byte>)

  function FrameOf(r: RawRecord): Frame
  {
    Frame(|r.data| % 0x1_0000_0000, r.checkSum, r.data)
  }

  /** Reads one record from the front of `b`: None when the header or the
      data it announces is cut short, else the frame and the rest. */
  function ParseFrame(b: seq<byte>): (res: Option<(Frame, seq<byte>)>)
    ensures res.Some? ==> |res.value.1| < |b|
  {
    if |b| < HEADER_SIZE then None
    else
      var len := U32FromLE(b[0..4]);
      if |b| < HEADER_SIZE + len then None
      else Some((Frame(len, U32FromLE(b[4..8]), b[8..8 + len]), b[8 + len..]))
  }

  /** Reads records until the bytes run out; None if the last one is cut short. */
  function ParseLog(b: seq<byte>): Option<seq<Frame>>
    decreases |b|
  {
    if |b| == 0 then Some([])
    else match ParseFrame(b)
      case None => None
      case Some((f, rest)) =>
        match ParseLog(rest)
        case None => None
        case Some(fs) => Some([f] + fs)
  }

  /** A record read from the front of its encoding gives back its length,
      checksum and data, and leaves what followed it. */
  lemma {:induction false} ParseEncode(r: RawRecord, rest: seq<byte>)
    requires |r.data| < 0x1_0000_0000
    ensures ParseFrame(Encode(r) + rest) == Some((FrameOf(r), rest))
  {
    var b := Encode(r) + rest;
    assert b[0..4] == U32LE(|r.data|);
    assert b[4..8] == U32LE(r.checkSum);
    U32RoundTrip(|r.data|);
    U32RoundTrip(r.checkSum);
    assert b[8..8 + |r.data|] == r.data;
    assert b[8 + |r.data|..] == rest;
  }

  /** EncodeAll read from the front: the first record's encoding, then the rest. */
  lemma {:induction false} EncodeAllCons(rs: seq<RawRecord>)
    requires rs != []
    ensures EncodeAll(rs) == Encode(rs[0]) + EncodeAll(rs[1..])
    decreases |rs|
  {
    if |rs| > 1 {
      EncodeAllCons(rs[..|rs| - 1]);
      assert rs[..|rs| - 1][1..] == rs[1..][..|rs| - 2];
      assert rs[..|rs| - 1][0] == rs[0];
    } else {
      assert rs[..0] == [] && rs[1..] == [];
    }
  }

  /** The frames the records `rs` are read back as. */
  function FramesOf(rs: seq<RawRecord>): (fs: seq<Frame>)
    ensures |fs| == |rs|
    ensures forall i :: 0 <= i < |rs| ==> fs[i] == FrameOf(rs[i])
  {
    seq(|rs|, i requires 0 <= i < |rs| => FrameOf(rs[i]))
  }

  /** Reading back the encodings of records whose data fit in a u32 length
      gives exactly their frames, in order. */
  lemma {:induction false} ParseEncodeAll(rs: seq<RawRecord>)
    requires forall i :: 0 <= i < |rs| ==> |rs[i].data| < 0x1_0000_0000
    ensures ParseLog(EncodeAll(rs)) == Some(FramesOf(rs))
    decreases |rs|
  {
    if rs != [] {
      var b := EncodeAll(rs);
      EncodeAllCons(rs);
      ParseEncode(rs[0], EncodeAll(rs[1..]));
      ParseEncodeAll(rs[1..]);
      assert |b| > 0;
      assert ParseFrame(b) == Some((FrameOf(rs[0]), EncodeAll(rs[1..])));
      assert ParseLog(b) == Some([FrameOf(rs[0])] + FramesOf(rs[1..]));
      assert [FrameOf(rs[0])] + FramesOf(rs[1..]) == FramesOf(rs);
    }
  }

  /** A frame read from the front of `b` reads the same when more bytes follow. */
  lemma {:induction false} ParseFrameExtend(b: seq<byte>, e: seq<byte>)
    requires ParseFrame(b).Some?
    ensures ParseFrame(b + e) == Some((ParseFrame(b).value.0, ParseFrame(b).value.1 + e))
  {
    var be := b + e;
    assert be[0..4] == b[0..4] && be[4..8] == b[4..8];
    var len := U32FromLE(b[0..4]);
    assert be[8..8 + len] == b[8..8 + len];
    assert be[8 + len..] == b[8 + len..] + e;
  }

  /** Bytes that read as whole records start with a frame, and their
      records are that frame followed by the records of the rest. */
  lemma {:induction false} ParseLogUncons(b: seq<byte>) returns (f: Frame, rest: seq<byte>, fs: seq<Frame>)
    requires |b| > 0 && ParseLog(b).Some?
    ensures ParseFrame(b) == Some((f, rest)) && |rest| < |b|
    ensures ParseLog(rest) == Some(fs) && ParseLog(b) == Some([f] + fs)
  {
    f, rest := ParseFrame(b).value.0, ParseFrame(b).value.1;
    fs := ParseLog(rest).value;
  }

  /** A frame followed by bytes that read as whole records reads as that
      frame and then those records. */
  lemma {:induction false} ParseLogCons(b: seq<byte>, f: Frame, rest: seq<byte>, fs: seq<Frame>)
    requires |b| > 0 && ParseFrame(b) == Some((f, rest)) && ParseLog(rest) == Some(fs)
    ensures ParseLog(b) == Some([f] + fs)
  {
  }

  /** Two byte strings that read as whole records read, one after the
      other, as the records of the first and then those of the second. */
  lemma {:induction false} ParseLogConcat(b: seq<byte>, e: seq<byte>)
    requires ParseLog(b).Some? && ParseLog(e).Some?
    ensures ParseLog(b + e) == Some(ParseLog(b).value + ParseLog(e).value)
    decreases |b|
  {
    if |b| == 0 {
      ParseLogConcatNil(b, e);
    } else {
      var f, rest, fs := ParseLogUncons(b);
      ParseLogConcat(rest, e);
      ParseLogConcatStep(b, e, f, rest, fs, ParseLog(e).value);
    }
  }

  lemma {:induction false} ParseLogConcatNil(b: seq<byte>, e: seq<byte>)
    requires |b| == 0 && ParseLog(e).Some?
    ensures ParseLog(b + e) == Some(ParseLog(b).value + ParseLog(e).value)
  {
    assert b + e == e;
    assert ParseLog(b).value + ParseLog(e).value == ParseLog(e).value;
  }

  /** The inductive step of ParseLogConcat: the first frame of `b` is still
      the first frame of `b + e`. */
  lemma {:induction false} ParseLogConcatStep(b: seq<byte>, e: seq<byte>, f: Frame, rest: seq<byte>,
                                              fs: seq<Frame>, es: seq<Frame>)
    requires |b| > 0 && ParseFrame(b) == Some((f, rest)) && ParseLog(b) == Some([f] + fs)
    requires ParseLog(rest + e) == Some(fs + es)
    ensures ParseLog(b + e) == Some(ParseLog(b).value + es)
  {
    ParseFrameExtend(b, e);
    ParseLogCons(b + e, f, rest + e, fs + es);
    assert [f] + (fs + es) == ([f] + fs) + es;
  }

  /** Bytes that read as whole records still do after one more record's
      encoding is appended, with that record's frame last. */
  lemma {:induction false} ParseLogSnoc(b: seq<byte>, r: RawRecord)
    requires ParseLog(b).Some? && |r.data| < 0x1_0000_0000
    ensures ParseLog(b + Encode(r)) == Some(ParseLog(b).value + [FrameOf(r)])
  {
    var e := Encode(r);
    ParseEncode(r, []);
    assert e + [] == e;
    assert ParseLog([]) == Some([]);
    ParseLogCons(e, FrameOf(r), [], []);
    assert [FrameOf(r)] + [] == [FrameOf(r)];
    ParseLogConcat(b, e);
  }

  // ---------------------------------------------------------------------
  // logName (wal/wal.go:60-63)

  function DigitChar(d: nat): char
    requires d < 10
  {
    ('0' as int + d) as char
  }

  /** fmt's %d for a non-negative number. */
  function Digits(n: nat): (s: string)
    ensures |s| >= 1
    ensures (|s| == 1) == (n < 10)
  {
    if n < 10 then [DigitChar(n)] else Digits(n / 10) + [DigitChar(n % 10)]
  }

  lemma {:induction false} DigitsInjective(a: nat, b: nat)
    requires Digits(a) == Digits(b)
    ensures a == b
    decreases a
  {
    if a >= 10 {
      var da, db := Digits(a), Digits(b);
      assert da[..|da| - 1] == Digits(a / 10) && da[|da| - 1] == DigitChar(a % 10);
      assert db[..|db| - 1] == Digits(b / 10) && db[|db| - 1] == DigitChar(b % 10);
      DigitsInjective(a / 10, b / 10);
    }
  }

  function LogName(n: nat): string
  {
    "xdb/wal-" + Digits(n) + ".log"
  }

  /** Different numbers name different files. */
  lemma {:induction false} LogNameInjective(a: nat, b: nat)
    ensures LogName(a) == LogName(b) <==> a == b
  {
    if LogName(a) == LogName(b) {
      var na, nb := LogName(a), LogName(b);
      assert |Digits(a)| == |Digits(b)|;
      assert na[8..|na| - 4] == Digits(a);
      assert nb[8..|nb| - 4] == Digits(b);
      DigitsInjective(a, b);
    }
  }

  // ---------------------------------------------------------------------
  // The writer's view of the file system
  //
  // Every file the writer creates is named logName(n) for some number n.
  // By LogNameInjective two numbers name the same file exactly when they
  // are equal, so the files are keyed by that number below.

  /** `files`: every log file's bytes, by the number in its name; `current`:
      the number of the file ww.f writes to; `size`: ww.size; `created`: the
      numbers of the names given to os.Create, in order. */
  datatype Disk = Disk(files: map<nat, seq<byte>>, current: nat, size: nat, created: seq<nat>)

  /** rollover (wal/wal.go:49-58): os.Create(logName(n)) makes that file
      empty (truncating one of that name), it becomes the active file, and
      size restarts at 0. */
  function Rollover(d: Disk, n: nat): (d2: Disk)
    ensures d2.current == n && n in d2.files && d2.files[n] == [] && d2.size == 0
    ensures d2.created == d.created + [n]
    ensures forall m :: m in d.files && m != n ==> m in d2.files && d2.files[m] == d.files[m]
  {
    Disk(d.files[n := []], n, 0, d.created + [n])
  }

  /** NewWalWriter's file state (wal/wal.go:35-46): rolled over to logName(firstSeq). */
  function Open(): (d: Disk)
    ensures d.files == map[FIRST_SEQ := []] && d.current == FIRST_SEQ
    ensures d.size == 0 && d.created == [FIRST_SEQ]
  {
    Rollover(Disk(map[], 0, 0, []), FIRST_SEQ)
  }

  /** writeRawRecord (wal/wal.go:133-152): roll over to logName(r.seqNo) when
      more than 50 bytes were written, then append the encoding. */
  function WriteRecord(d: Disk, r: RawRecord): (d2: Disk)
    requires d.current in d.files
    ensures d2.current in d2.files
  {
    WriteBytes(if d.size > MAX_FILE_BYTE_SIZE then Rollover(d, r.seqNo) else d, Encode(r))
  }

  /** bufWriter.Write followed by the size update: the bytes go to the end
      of the active file and size grows by their number. */
  function WriteBytes(d: Disk, e: seq<byte>): (d2: Disk)
    requires d.current in d.files
    ensures d2.current in d2.files
  {
    Disk(d.files[d.current := d.files[d.current] + e], d.current, d.size + |e|, d.created)
  }

  /** One write, as seen from outside: it rotates exactly when more than 50
      bytes were written, the active file grows by the record's 8 + len(data)
      bytes, no other file changes, and the active file held at most 50
      bytes before the record went in. */
  lemma WriteRecordEffect(d: Disk, r: RawRecord)
    requires d.current in d.files && d.size == |d.files[d.current]|
    ensures var d2 := WriteRecord(d, r);
      var rotated := d.size > MAX_FILE_BYTE_SIZE;
      d2.current == (if rotated then r.seqNo else d.current) &&
      d2.created == (if rotated then d.created + [r.seqNo] else d.created) &&
      d2.files[d2.current] == (if rotated then [] else d.files[d.current]) + Encode(r) &&
      d2.size == |d2.files[d2.current]| &&
      d2.size - (HEADER_SIZE + |r.data|) <= MAX_FILE_BYTE_SIZE &&
      (forall n :: n in d2.files <==> n in d.files || n == d2.current) &&
      (forall n :: n in d.files && n != d2.current ==> d2.files[n] == d.files[n])
  {
    assert [] + Encode(r) == Encode(r);
  }

  /** The files after Append stamped `rs` and the write loop wrote them all. */
  function Replay(rs: seq<RawRecord>): (d: Disk)
    ensures d.current in d.files
  {
    if rs == [] then Open() else WriteRecord(Replay(rs[..|rs| - 1]), rs[|rs| - 1])
  }

  /** The files' bytes in creation order. */
  function Concat(files: map<nat, seq<byte>>, names: seq<nat>): seq<byte>
    requires forall n :: n in names ==> n in files
  {
    if names == [] then []
    else Concat(files, names[..|names| - 1]) + files[names[|names| - 1]]
  }

  lemma ConcatSnoc(files: map<nat, seq<byte>>, names: seq<nat>, n: nat)
    requires forall m :: m in names ==> m in files
    requires n in files
    ensures Concat(files, names + [n]) == Concat(files, names) + files[n]
  {
    assert (names + [n])[..|names|] == names;
  }

  /** Changing a file outside `names` leaves their concatenation alone. */
  lemma {:induction false} ConcatOtherUpdate(files: map<nat, seq<byte>>, names: seq<nat>, n: nat, v: seq<byte>)
    requires forall m :: m in names ==> m in files
    requires n !in names
    ensures Concat(files[n := v], names) == Concat(files, names)
    decreases |names|
  {
    if names != [] {
      ConcatOtherUpdate(files, names[..|names| - 1], n, v);
    }
  }

  ghost predicate Increasing(s: seq<nat>)
  {
    forall i, j :: 0 <= i < j < |s| ==> s[i] < s[j]
  }

  /** What holds of the files when `q` is the number of the next record to
      be written: files were created under strictly increasing numbers (so
      no name twice), the created names are exactly the files, the active
      file is the last one created and holds `size` bytes, every closed
      file exceeded 50 bytes, and the active file is named after a record
      already written or, still empty, after record q itself. */
  ghost predicate DiskInv(d: Disk, q: nat)
  {
    |d.created| > 0 && Increasing(d.created) &&
    d.current == d.created[|d.created| - 1] &&
    (d.current < q || (d.current == q && d.size == 0)) &&
    (forall n :: n in d.files <==> n in d.created) &&
    d.size == |d.files[d.current]| &&
    (forall i :: 0 <= i < |d.created| - 1 ==> |d.files[d.created[i]]| > MAX_FILE_BYTE_SIZE)
  }

  /** Writing record number q keeps the invariant (now for q + 1) and adds
      exactly its encoding at the end of the files read in creation order. */
  lemma {:induction false} WriteRecordKeepsInv(d: Disk, r: RawRecord)
    requires DiskInv(d, r.seqNo)
    ensures DiskInv(WriteRecord(d, r), r.seqNo + 1)
    ensures Concat(WriteRecord(d, r).files, WriteRecord(d, r).created) == Concat(d.files, d.created) + Encode(r)
  {
    if d.size > MAX_FILE_BYTE_SIZE {
      RotateKeepsInv(d, r.seqNo, Encode(r));
      RotateConcat(d, r.seqNo, Encode(r));
    } else {
      GrowKeepsInv(d, r.seqNo, Encode(r));
      GrowConcat(d, r.seqNo, Encode(r));
    }
  }

  /** A rollover to file q after more than 50 bytes, then a write: every
      earlier file has a smaller number, so q is a new name and the old
      active file is closed. */
  lemma {:induction false} RotateKeepsInv(d: Disk, q: nat, e: seq<byte>)
    requires DiskInv(d, q) && d.size > MAX_FILE_BYTE_SIZE
    ensures DiskInv(WriteBytes(Rollover(d, q), e), q + 1)
  {
    var d2 := WriteBytes(Rollover(d, q), e);
    assert q !in d.created;
    assert d2.files == d.files[q := [] + e] && d2.created == d.created + [q];
    forall i | 0 <= i < |d2.created| - 1
      ensures |d2.files[d2.created[i]]| > MAX_FILE_BYTE_SIZE
    {
      assert d2.created[i] == d.created[i] != q;
    }
  }

  /** ... and the bytes written become that new last file's only content. */
  lemma {:induction false} RotateConcat(d: Disk, q: nat, e: seq<byte>)
    requires DiskInv(d, q) && d.size > MAX_FILE_BYTE_SIZE
    ensures var d2 := WriteBytes(Rollover(d, q), e);
      Concat(d2.files, d2.created) == Concat(d.files, d.created) + e
  {
    assert q !in d.created;
    var d2 := WriteBytes(Rollover(d, q), e);
    assert [] + e == e;
    assert d2.files == d.files[q := e] && d2.created == d.created + [q];
    ConcatSnoc(d.files[q := e], d.created, q);
    ConcatOtherUpdate(d.files, d.created, q, e);
  }

  /** A write that stays in the active file keeps the names. */
  lemma {:induction false} GrowKeepsInv(d: Disk, q: nat, e: seq<byte>)
    requires DiskInv(d, q) && d.size <= MAX_FILE_BYTE_SIZE
    ensures DiskInv(WriteBytes(d, e), q + 1)
  {
  }

  /** ... and grows the last file created, which no earlier number denotes. */
  lemma {:induction false} GrowConcat(d: Disk, q: nat, e: seq<byte>)
    requires DiskInv(d, q) && d.size <= MAX_FILE_BYTE_SIZE
    ensures var d2 := WriteBytes(d, e);
      Concat(d2.files, d2.created) == Concat(d.files, d.created) + e
  {
    var last := |d.created| - 1;
    var closed := d.created[..last];
    assert d.created == closed + [d.current];
    assert d.current !in closed;
    var files2 := d.files[d.current := d.files[d.current] + e];
    ConcatSnoc(files2, closed, d.current);
    ConcatSnoc(d.files, closed, d.current);
    ConcatOtherUpdate(d.files, closed, d.current, d.files[d.current] + e);
  }

  /** Writing records numbered FIRST_SEQ, FIRST_SEQ + 1, ... in order: the
      log files, read in the order they were created, hold exactly the
      records' encodings in that order, and the invariant holds for the
      next number. */
  lemma {:induction false} ReplayKeepsInv(rs: seq<RawRecord>)
    requires forall i :: 0 <= i < |rs| ==> rs[i].seqNo == FIRST_SEQ + i
    ensures var d := Replay(rs);
      DiskInv(d, FIRST_SEQ + |rs|) && Concat(d.files, d.created) == EncodeAll(rs)
    decreases |rs|
  {
    if rs == [] {
      assert Concat(Open().files, Open().created) == Concat(Open().files, []) + [];
    } else {
      var init := rs[..|rs| - 1];
      ReplayKeepsInv(init);
      WriteRecordKeepsInv(Replay(init), rs[|rs| - 1]);
    }
  }

  /** The same for the records Append makes of `logs`. */
  lemma ReplayKeepsAllRecords(logs: seq<seq<byte>>)
    ensures var d := Replay(Records(FIRST_SEQ, logs));
      DiskInv(d, FIRST_SEQ + |logs|) &&
      Concat(d.files, d.created) == EncodeAll(Records(FIRST_SEQ, logs))
  {
    ReplayKeepsInv(Records(FIRST_SEQ, logs));
  }

  /** What recovery would read: parsing the log files in creation order gives
      one frame per appended record, in Append order, each with its data and
      a checksum that is the CRC-32C of that data. */
  lemma ReplayRecoverable(logs: seq<seq<byte>>)
    requires forall i :: 0 <= i < |logs| ==> |logs[i]| < 0x1_0000_0000
    ensures var d := Replay(Records(FIRST_SEQ, logs));
      forall n :: n in d.created ==> n in d.files
    ensures var d := Replay(Records(FIRST_SEQ, logs));
      ParseLog(Concat(d.files, d.created)) == Some(FramesOfLogs(logs))
  {
    var rs := Records(FIRST_SEQ, logs);
    ReplayKeepsAllRecords(logs);
    ParseEncodeAll(rs);
    var fs, gs := FramesOf(rs), FramesOfLogs(logs);
    forall i | 0 <= i < |logs|
      ensures fs[i] == gs[i]
    {
      var n := |logs[i]|;
      assert rs[i].data == logs[i] && rs[i].checkSum == Crc32c(logs[i]);
      assert n < 0x1_0000_0000;
      U32Small(n);
      assert fs[i] == Frame(n, Crc32c(logs[i]), logs[i]);
    }
    assert fs == gs;
  }

  /** Every log file on its own reads as a sequence of whole records. */
  ghost predicate FilesParse(d: Disk)
  {
    forall n :: n in d.files ==> ParseLog(d.files[n]).Some?
  }

  /** A write keeps every file readable as whole records: a rollover starts
      an empty file, and the write appends one whole record. */
  lemma {:induction false} WriteRecordKeepsParse(d: Disk, r: RawRecord)
    requires d.current in d.files && FilesParse(d) && |r.data| < 0x1_0000_0000
    ensures FilesParse(WriteRecord(d, r))
  {
    var d1 := if d.size > MAX_FILE_BYTE_SIZE then Rollover(d, r.seqNo) else d;
    assert ParseLog([]) == Some([]);
    assert FilesParse(d1);
    ParseLogSnoc(d1.files[d1.current], r);
  }

  /** After the write loop has written the records Append makes, each log
      file on its own reads as a sequence of whole records. */
  lemma {:induction false} ReplayFilesParse(rs: seq<RawRecord>)
    requires forall i :: 0 <= i < |rs| ==> |rs[i].data| < 0x1_0000_0000
    ensures FilesParse(Replay(rs))
    decreases |rs|
  {
    if rs == [] {
      assert ParseLog([]) == Some([]);
    } else {
      var init := rs[..|rs| - 1];
      ReplayFilesParse(init);
      WriteRecordKeepsParse(Replay(init), rs[|rs| - 1]);
    }
  }

  /** The same for the records Append makes: every file created reads, on
      its own, as a sequence of whole records. */
  lemma ReplayFilesWhole(logs: seq<seq<byte>>)
    requires forall i :: 0 <= i < |logs| ==> |logs[i]| < 0x1_0000_0000
    ensures var d := Replay(Records(FIRST_SEQ, logs));
      forall n :: n in d.created ==> n in d.files && ParseLog(d.files[n]).Some?
  {
    ReplayKeepsAllRecords(logs);
    ReplayFilesParse(Records(FIRST_SEQ, logs));
  }

  lemma U32Small(n: nat)
    requires n < 0x1_0000_0000
    ensures n % 0x1_0000_0000 == n
  {
  }

  /** The frame recovery should find for each appended content, in order. */
  function FramesOfLogs(logs: seq<seq<byte>>): (fs: seq<Frame>)
    requires forall i :: 0 <= i < |logs| ==> |logs[i]| < 0x1_0000_0000
    ensures |fs| == |logs|
    ensures forall i :: 0 <= i < |logs| ==>
      fs[i].length == |logs[i]| && fs[i].checkSum == Crc32c(logs[i]) && fs[i].data == logs[i]
  {
    seq(|logs|, i requires 0 <= i < |logs| => Frame(|logs[i]|, Crc32c(logs[i]), logs[i]))
  }

  /** As written, the writer's seq starts at its zero value, so the first
      record is number 0 but goes into logName(firstSeq) = "xdb/wal-1.log".
      When that record is longer than 42 bytes, the second record (number 1)
      finds more than 50 bytes written and rolls over to logName(1): the
      same file, which os.Create truncates. The first record is lost: the
      files hold only the second record. */
  lemma ZeroStartLosesFirstRecord(logs: seq<seq<byte>>)
    requires |logs| == 2 && |logs[0]| > MAX_FILE_BYTE_SIZE - HEADER_SIZE
    ensures var rs := Records(0, logs);
      Replay(rs).created == [FIRST_SEQ, FIRST_SEQ] &&
      Replay(rs).files == map[FIRST_SEQ := Encode(rs[1])]
  {
    var rs := Records(0, logs);
    assert rs[..1][..0] == [];
    var d1 := WriteRecord(Open(), rs[0]);
    assert Replay(rs[..1]) == d1;
    assert d1.size > MAX_FILE_BYTE_SIZE && d1.created == [FIRST_SEQ] && d1.files.Keys == {FIRST_SEQ};
    assert rs[..|rs| - 1] == rs[..1];
    var d2 := WriteRecord(d1, rs[1]);
    assert Replay(rs) == d2;
    assert rs[1].seqNo == FIRST_SEQ;
    assert [] + Encode(rs[1]) == Encode(rs[1]);
  }

  // ---------------------------------------------------------------------
  // The writer

  /** Appended records are numbered from FIRST_SEQ; the first `written` are
      on disk, exactly as Replay writes them, and the rest wait in the queue. */
  ghost predicate WriterInv(nextSeq: nat, queue: seq<RawRecord>, d: Disk, appended: seq<seq<byte>>, written: nat)
  {
    nextSeq == FIRST_SEQ + |appended| && written <= |appended| &&
    queue == Records(FIRST_SEQ, appended)[written..] &&
    d == Replay(Records(FIRST_SEQ, appended[..written]))
  }

  /** Append keeps the invariant: the new record, numbered nextSeq, joins the
      end of the queue and the disk is untouched. */
  lemma {:induction false} AppendKeepsInv(nextSeq: nat, queue: seq<RawRecord>, d: Disk,
                                          appended: seq<seq<byte>>, written: nat, x: seq<byte>)
    requires WriterInv(nextSeq, queue, d, appended, written)
    ensures WriterInv(nextSeq + 1, queue + [Serialize(RecordLog(nextSeq, x))], d, appended + [x], written)
  {
    RecordsAppend(appended, x, written);
  }

  /** Writing the oldest queued record keeps the invariant, one more written. */
  lemma {:induction false} WriteKeepsInv(nextSeq: nat, queue: seq<RawRecord>, d: Disk,
                                         appended: seq<seq<byte>>, written: nat)
    requires WriterInv(nextSeq, queue, d, appended, written) && queue != []
    ensures WriterInv(nextSeq, queue[1..], WriteRecord(d, queue[0]), appended, written + 1)
  {
    var w := written + 1;
    RecordsPrefix(FIRST_SEQ, appended, w);
    var rs := Records(FIRST_SEQ, appended[..w]);
    assert rs[..|rs| - 1] == Records(FIRST_SEQ, appended[..written]) by {
      assert appended[..w][..written] == appended[..written];
      RecordsPrefix(FIRST_SEQ, appended[..w], written);
    }
  }

  class WalWriter {
    /** ww.seq: the number the next Append stamps. */
    var nextSeq: nat
    /** ww.size: bytes written to the active file since the last rollover. */
    var size: nat
    /** recordChn: the records Append handed over and the write loop has not taken yet. */
    var queue: seq<RawRecord>
    /** The file system: every log file's bytes, by the number in its name. */
    var files: map<nat, seq<byte>>
    /** The number of the file ww.f (through ww.bufWriter) writes to. */
    var current: nat
    /** The numbers of the names given to os.Create, in order. */
    ghost var created: seq<nat>
    /** The contents of every log appended so far, in Append order. */
    ghost var appended: seq<seq<byte>>
    /** How many of them the write loop has written. */
    ghost var written: nat

    ghost function State(): Disk
      reads this
    {
      Disk(files, current, size, created)
    }

    ghost predicate Valid()
      reads this
    {
      WriterInv(nextSeq, queue, State(), appended, written)
    }

    /** rollover (wal/wal.go:49-58). */
    method RolloverTo(n: nat)
      modifies this
      ensures State() == Rollover(old(State()), n)
      ensures nextSeq == old(nextSeq) && queue == old(queue) && appended == old(appended) && written == old(written)
    {
      files := files[n := []];
      current := n;
      size := 0;
      created := created + [n];
    }

    /** NewWalWriter (wal/wal.go:35-46), with seq starting at FIRST_SEQ, the
        number its first file is named after. */
    constructor ()
      ensures Valid() && appended == [] && queue == [] && State() == Open()
    {
      nextSeq := FIRST_SEQ;
      queue := [];
      files, current, size, created := map[], 0, 0, [];
      appended, written := [], 0;
      new;
      RolloverTo(FIRST_SEQ);
      assert appended[..0] == [];
    }

    /** Append (wal/wal.go:77-92): stamps the log with the next number,
        which then goes up by one, and queues its serialised record. */
    method Append(log: RecordLog) returns (stamped: RecordLog)
      requires Valid()
      modifies this
      ensures Valid()
      ensures stamped == RecordLog(old(nextSeq), log.content)
      ensures nextSeq == old(nextSeq) + 1
      ensures queue == old(queue) + [Serialize(stamped)]
      ensures appended == old(appended) + [log.content] && written == old(written)
      ensures State() == old(State())
    {
      stamped := RecordLog(nextSeq, log.content);
      var r := Serialize(stamped);
      ghost var d := State();
      AppendKeepsInv(nextSeq, queue, d, appended, written, log.content);
      nextSeq, queue, appended := nextSeq + 1, queue + [r], appended + [log.content];
      assert State() == d;
    }

    /** writeRawRecord (wal/wal.go:133-152). */
    method WriteRawRecord(r: RawRecord)
      requires current in files
      modifies this
      ensures State() == WriteRecord(old(State()), r)
      ensures nextSeq == old(nextSeq) && queue == old(queue) && appended == old(appended) && written == old(written)
    {
      if size > MAX_FILE_BYTE_SIZE {
        RolloverTo(r.seqNo);
      }
      var scratch := U32LE(|r.data| % 0x1_0000_0000) + U32LE(r.checkSum);
      assert files[current] + scratch + r.data == files[current] + Encode(r);
      files := files[current := files[current] + scratch + r.data];
      size := size + |r.data| + |scratch|;
    }

    /** One iteration of writeLoop (wal/wal.go:108-124) for a queued record:
        take the oldest one, write it, flush and sync. */
    method ProcessOne()
      requires Valid() && queue != []
      modifies this
      ensures Valid()
      ensures queue == old(queue)[1..] && written == old(written) + 1
      ensures State() == WriteRecord(old(State()), old(queue)[0])
      ensures nextSeq == old(nextSeq) && appended == old(appended)
    {
      WriteKeepsInv(nextSeq, queue, State(), appended, written);
      var r := queue[0];
      queue := queue[1..];
      WriteRawRecord(r);
      written := written + 1;
    }

    /** Once the loop has written everything queued, the log files read in
        creation order decode to the appended contents, in order, each with
        its CRC-32C; every file but the active one exceeded 50 bytes, and
        every file on its own reads as a sequence of whole records. */
    lemma Recoverable()
      requires Valid() && queue == []
      requires forall i :: 0 <= i < |appended| ==> |appended[i]| < 0x1_0000_0000
      ensures forall n :: n in created ==> n in files
      ensures ParseLog(Concat(files, created)) == Some(FramesOfLogs(appended))
      ensures forall n :: n in files && n != current ==> |files[n]| > MAX_FILE_BYTE_SIZE
      ensures forall n :: n in created ==> ParseLog(files[n]).Some?
    {
      assert appended[..written] == appended;
      ReplayRecoverable(appended);
      ReplayKeepsAllRecords(appended);
      ReplayFilesWhole(appended);
      forall n | n in files && n != current
        ensures |files[n]| > MAX_FILE_BYTE_SIZE
      {
        var i :| 0 <= i < |created| && created[i] == n;
      }
    }
  }
}
