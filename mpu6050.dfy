/** The byte-level side of the MPU6050 (accelerometer and gyroscope) demo:
    register-write frames, and the decoding of the 14-byte measurement block
    into seven big-endian two's-complement 16-bit words. */
module Mpu6050 {
  import opened Esp

  /** `uint8_t`. */
  newtype byte = x: int | 0 <= x < 0x100

  const RegPwrMgmt1: byte := 0x6B
  const RegAccelConfig: byte := 0x1C
  const RegGyroConfig: byte := 0x1B
  const RegConfig: byte := 0x1A

  /** `uint8_t data[14]`: the burst read starting at ACCEL_XOUT_H. */
  const BlockLength: nat := 14

  predicate IsInt16(v: int) { -0x8000 <= v < 0x8000 }

  /** `(hi << 8) | lo` on the promoted bytes: `hi` lands in bits 8 to 15 and
      `lo` in bits 0 to 7, so the OR adds them without carry. */
  function JoinBytes(hi: byte, lo: byte): (u: int)
    ensures 0 <= u < 0x1_0000
    ensures u / 256 == hi as int && u % 256 == lo as int
  {
    hi as int * 256 + lo as int
  }

  /** The sum in `JoinBytes` is the C expression: on 32-bit words, shifting
      the high byte left by 8 and OR-ing the low byte gives it. */
  lemma JoinBytesIsShiftOr(hi: bv32, lo: bv32)
    requires hi < 256 && lo < 256
    ensures ((hi << 8) | lo) as int == JoinBytes(hi as int as byte, lo as int as byte)
  {
  }

  /** The `(int16_t)` conversion of a value in [0, 2^16): the int16 that is
      congruent to it modulo 2^16. */
  function ToInt16(u: int): (v: int)
    requires 0 <= u < 0x1_0000
    ensures IsInt16(v)
    ensures (u - v) % 0x1_0000 == 0
  {
    if u < 0x8000 then u else u - 0x1_0000
  }

  /** `read_word(data, idx)`: `(int16_t)((data[idx] << 8) | data[idx + 1])`. */
  function ReadWord(data: seq<byte>, idx: int): (w: int)
    requires 0 <= idx && idx + 1 < |data|
    ensures IsInt16(w)
  {
    ToInt16(JoinBytes(data[idx], data[idx + 1]))
  }

  /** The value read is the big-endian pair taken as unsigned, less 2^16 when
      the sign bit (bit 7 of the high byte) is set. */
  lemma ReadWordValue(data: seq<byte>, idx: int)
    requires 0 <= idx && idx + 1 < |data|
    ensures ReadWord(data, idx) == if data[idx] < 0x80 then data[idx] as int * 256 + data[idx + 1] as int
                                   else data[idx] as int * 256 + data[idx + 1] as int - 0x1_0000
  {
  }

  /** `read_word` looks at `data[idx]` and `data[idx + 1]` and nothing else. */
  lemma ReadWordLocal(a: seq<byte>, i: int, b: seq<byte>, j: int)
    requires 0 <= i && i + 1 < |a| && 0 <= j && j + 1 < |b|
    requires a[i] == b[j] && a[i + 1] == b[j + 1]
    ensures ReadWord(a, i) == ReadWord(b, j)
  {
  }

  /** The high byte and the low byte of a 16-bit two's-complement value, as
      the sensor sends them. */
  function EncodeWord(v: int): (b: seq<byte>)
    requires IsInt16(v)
    ensures |b| == 2
  {
    var u := v % 0x1_0000;
    [(u / 256) as byte, (u % 256) as byte]
  }

  /** Decoding undoes encoding: every int16 comes back from its two bytes. */
  lemma ReadWordEncodeWord(v: int)
    requires IsInt16(v)
    ensures ReadWord(EncodeWord(v), 0) == v
  {
    var u := v % 0x1_0000;
    assert u == if v < 0 then v + 0x1_0000 else v;
    var b := EncodeWord(v);
    assert JoinBytes(b[0], b[1]) == u;
  }

  /** Encoding undoes decoding: the two bytes are given back, so `read_word`
      is injective on byte pairs. */
  lemma EncodeWordReadWord(data: seq<byte>, idx: int)
    requires 0 <= idx && idx + 1 < |data|
    ensures EncodeWord(ReadWord(data, idx)) == data[idx..idx + 2]
  {
    var u := JoinBytes(data[idx], data[idx + 1]);
    var w := ReadWord(data, idx);
    assert w % 0x1_0000 == u;
  }

  lemma ReadWordInjective(a: seq<byte>, i: int, b: seq<byte>, j: int)
    requires 0 <= i && i + 1 < |a| && 0 <= j && j + 1 < |b|
    requires ReadWord(a, i) == ReadWord(b, j)
    ensures a[i] == b[j] && a[i + 1] == b[j + 1]
  {
    EncodeWordReadWord(a, i);
    EncodeWordReadWord(b, j);
    assert a[i..i + 2][0] == a[i] && a[i..i + 2][1] == a[i + 1];
    assert b[j..j + 2][0] == b[j] && b[j..j + 2][1] == b[j + 1];
  }

  /** The raw readings `ax, ay, az, temp_raw, gx, gy, gz`. */
  datatype RawSample = RawSample(ax: int, ay: int, az: int, tempRaw: int, gx: int, gy: int, gz: int)

  /** The readings in block order. */
  function Fields(s: RawSample): seq<int> {
    [s.ax, s.ay, s.az, s.tempRaw, s.gx, s.gy, s.gz]
  }

  predicate ValidSample(s: RawSample) {
    IsInt16(s.ax) && IsInt16(s.ay) && IsInt16(s.az) && IsInt16(s.tempRaw)
      && IsInt16(s.gx) && IsInt16(s.gy) && IsInt16(s.gz)
  }

  /** The block the sensor sends for a sample: each reading as two bytes,
      high byte first, in block order. */
  function EncodeSample(s: RawSample): (data: seq<byte>)
    requires ValidSample(s)
    ensures |data| == BlockLength
  {
    EncodeWord(s.ax) + EncodeWord(s.ay) + EncodeWord(s.az) + EncodeWord(s.tempRaw)
      + EncodeWord(s.gx) + EncodeWord(s.gy) + EncodeWord(s.gz)
  }

  /** The seven `read_word` calls on the 14-byte block. Reading k takes
      bytes 2k and 2k + 1, so the seven pairs are disjoint, consecutive, and
      together cover the block; encoding the readings gives the block back. */
  function DecodeBlock(data: seq<byte>): (s: RawSample)
    requires |data| == BlockLength
    ensures ValidSample(s)
    ensures forall k :: 0 <= k < |Fields(s)| ==> Fields(s)[k] == ReadWord(data, 2 * k)
    ensures EncodeSample(s) == data
  {
    var s := RawSample(ReadWord(data, 0), ReadWord(data, 2), ReadWord(data, 4), ReadWord(data, 6),
                       ReadWord(data, 8), ReadWord(data, 10), ReadWord(data, 12));
    EncodeWordReadWord(data, 0);
    EncodeWordReadWord(data, 2);
    EncodeWordReadWord(data, 4);
    EncodeWordReadWord(data, 6);
    EncodeWordReadWord(data, 8);
    EncodeWordReadWord(data, 10);
    EncodeWordReadWord(data, 12);
    assert data == data[0..2] + data[2..4] + data[4..6] + data[6..8] + data[8..10] + data[10..12] + data[12..14];
    s
  }

  /** Decoding a block the sensor built from a sample returns that sample. */
  lemma DecodeEncodeSample(s: RawSample)
    requires ValidSample(s)
    ensures DecodeBlock(EncodeSample(s)) == s
  {
    var data := EncodeSample(s);
    var d := DecodeBlock(data);
    forall k | 0 <= k < 7
      ensures Fields(d)[k] == Fields(s)[k]
    {
      assert data[2 * k..2 * k + 2] == EncodeWord(Fields(s)[k]);
      ReadWordEncodeWord(Fields(s)[k]);
      assert ReadWord(data, 2 * k) == ReadWord(data[2 * k..2 * k + 2], 0);
    }
    assert Fields(d) == Fields(s);
  }

  /** `mpu6050_write_byte(reg, data)`: the two bytes put on the bus after
      the device address. */
  function WriteFrame(reg: byte, value: byte): (frame: seq<byte>)
    ensures |frame| == 2
  {
    [reg, value]
  }

  /** How the device takes a write frame: the first byte selects the
      register, the second is stored in it. */
  function ParseFrame(frame: seq<byte>): Option<(byte, byte)> {
    if |frame| == 2 then Some((frame[0], frame[1])) else None
  }

  /** A frame is exactly the register followed by the value. */
  lemma WriteFrameParses(reg: byte, value: byte)
    ensures ParseFrame(WriteFrame(reg, value)) == Some((reg, value))
    ensures forall r: byte, v: byte :: WriteFrame(r, v) == WriteFrame(reg, value) ==> r == reg && v == value
  {
  }

  /** The register writes of `mpu6050_init`, in order. */
  const InitFrames: seq<seq<byte>> := [
    WriteFrame(RegPwrMgmt1, 0x00),     // wake up
    WriteFrame(RegAccelConfig, 0x10),  // +-8 g
    WriteFrame(RegGyroConfig, 0x08),   // +-500 deg/s
    WriteFrame(RegConfig, 0x04)        // low-pass filter setting 4
  ]

  /** The register file after the device has been sent `frames`, where
      `results[i]` is what the i-th `mpu6050_write_byte` returned: a write
      that succeeded stores its value, a write that failed leaves the device
      as it was. */
  function ApplyWrites(regs: map<byte, byte>, frames: seq<seq<byte>>, results: seq<EspErr>): map<byte, byte>
    requires |results| == |frames|
    decreases |frames|
  {
    if frames == [] then regs
    else
      var regs' := match ParseFrame(frames[0])
        case Some((r, v)) => if results[0] == EspOk then regs[r := v] else regs
        case None => regs;
      ApplyWrites(regs', frames[1..], results[1..])
  }

  /** What register `r` holds after one write of `v` to it: `v` when the
      write succeeded, otherwise whatever it held before. */
  predicate WriteOutcome(before: map<byte, byte>, after: map<byte, byte>, r: byte, v: byte, ok: bool) {
    if ok then r in after && after[r] == v
    else (r in after <==> r in before) && (r in before ==> after[r] == before[r])
  }

  /** The register file after a write of `v` to `r` whose result says `ok`. */
  function WriteIf(regs: map<byte, byte>, r: byte, v: byte, ok: bool): map<byte, byte> {
    if ok then regs[r := v] else regs
  }

  /** The four init writes, taken one after the other. */
  lemma InitWritesSteps(regs: map<byte, byte>, results: seq<EspErr>)
    requires |results| == |InitFrames|
    ensures ApplyWrites(regs, InitFrames, results)
            == WriteIf(WriteIf(WriteIf(WriteIf(regs, RegPwrMgmt1, 0x00, results[0] == EspOk),
                                       RegAccelConfig, 0x10, results[1] == EspOk),
                               RegGyroConfig, 0x08, results[2] == EspOk),
                       RegConfig, 0x04, results[3] == EspOk)
  {
    var f, rs := InitFrames, results;
    var m1 := WriteIf(regs, RegPwrMgmt1, 0x00, rs[0] == EspOk);
    var m2 := WriteIf(m1, RegAccelConfig, 0x10, rs[1] == EspOk);
    var m3 := WriteIf(m2, RegGyroConfig, 0x08, rs[2] == EspOk);
    var m4 := WriteIf(m3, RegConfig, 0x04, rs[3] == EspOk);
    assert f[1..][1..][1..][1..] == [];
    assert ApplyWrites(m3, f[1..][1..][1..], rs[1..][1..][1..]) == m4;
    assert ApplyWrites(m2, f[1..][1..], rs[1..][1..]) == m4;
    assert ApplyWrites(m1, f[1..], rs[1..]) == m4;
  }

  /** `mpu6050_init` ignores what its four writes return, so each of the four
      registers ends up configured exactly when its own write succeeded and
      keeps its old contents when that write failed; no other register
      changes. */
  lemma InitWritesEffect(regs: map<byte, byte>, results: seq<EspErr>)
    requires |results| == |InitFrames|
    ensures var after := ApplyWrites(regs, InitFrames, results);
            && WriteOutcome(regs, after, RegPwrMgmt1, 0x00, results[0] == EspOk)
            && WriteOutcome(regs, after, RegAccelConfig, 0x10, results[1] == EspOk)
            && WriteOutcome(regs, after, RegGyroConfig, 0x08, results[2] == EspOk)
            && WriteOutcome(regs, after, RegConfig, 0x04, results[3] == EspOk)
            && forall r :: r != RegPwrMgmt1 && r != RegAccelConfig && r != RegGyroConfig && r != RegConfig ==>
                 (r in after <==> r in regs) && (r in regs ==> after[r] == regs[r])
  {
    InitWritesSteps(regs, results);
  }

  /** When all four writes of `mpu6050_init` succeed, the sensor is awake,
      and the full-scale fields (bits 3 and 4) select +-8 g and +-500 deg/s,
      with low-pass filter setting 4. */
  lemma InitConfiguresSensor(regs: map<byte, byte>, results: seq<EspErr>)
    requires |results| == |InitFrames|
    requires forall i :: 0 <= i < |results| ==> results[i] == EspOk
    ensures var after := ApplyWrites(regs, InitFrames, results);
            && RegPwrMgmt1 in after && after[RegPwrMgmt1] == 0x00
            && RegAccelConfig in after && (after[RegAccelConfig] as int / 8) % 4 == 2
            && RegGyroConfig in after && (after[RegGyroConfig] as int / 8) % 4 == 1
            && RegConfig in after && after[RegConfig] == 0x04
  {
    InitWritesEffect(regs, results);
    assert results[0] == EspOk && results[1] == EspOk && results[2] == EspOk && results[3] == EspOk;
  }
}
