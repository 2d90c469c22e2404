/** The register-level protocol of the LSM303DLHC: bus addresses, the
    decoding of the magnetometer and accelerometer output bursts, the
    saturation test, and the packing of configuration bytes. The functions
    here state what the driver's bit expressions compute, in arithmetic;
    the *Expression lemmas prove that the JavaScript expressions of the
    driver compute exactly that. */
module Protocol {
  import opened JsBits

  /** Bus address of the magnetometer half of the chip. */
  const COMPASS_REG: int := 0x1E
  /** Bus address of the accelerometer half: the 8-bit address 0x32 in its
      7-bit form (see AccAddressExpression). */
  const ACC_REG: int := 0x19
  /** First accelerometer output register, OUT_X_L_A. */
  const ACC_OUT: int := 0x28
  /** The raw value the magnetometer reports for a saturated axis. */
  const SATURATION: int := -4096

  /** Three signed axis values, before any scaling. */
  datatype Axes = Axes(x: int, y: int, z: int)

  /** The bit fields of magnetometer configuration register A. */
  datatype ConfigA = ConfigA(averaging: int, rate: int, measurement: int)

  /** `0x32 >> 1` is the accelerometer's address. */
  lemma AccAddressExpression()
    ensures Shr(0x32, 1) == ACC_REG
  {
    ShrSmall(0x32, 1);
    assert Pow2(1) == 2;
  }

  /** The register pointer sent before an accelerometer read: bit 7 asks the
      chip to auto-increment, and on a 7-bit register number `reg | 0x80`
      simply adds 0x80. */
  lemma AutoIncrementExpression(reg: int)
    requires 0 <= reg < 0x80
    ensures Or(reg, 0x80) == reg + 0x80
  {
    assert Pow2(7) == 0x80;
    OrShifted(1, 7, 0x80, reg);
    ShlSmall(1, 7);
  }

  // ---------------------------------------------------------------------
  // 16-bit words and the sign correction

  /** The unsigned 16-bit word made of a high and a low byte. */
  function Word(hi: byte, lo: byte): (w: int)
    ensures 0 <= w < 0x10000
  {
    hi as int * 256 + lo as int
  }

  /** `(hi << 8) | lo` and `lo | (hi << 8)` both build the word. */
  lemma WordExpression(hi: byte, lo: byte)
    ensures Or(Shl(hi, 8), lo) == Word(hi, lo)
    ensures Or(lo, Shl(hi, 8)) == Word(hi, lo)
  {
    assert Pow2(8) == 256;
    OrShifted(hi, 8, 256, lo);
  }

  /** The driver's sign correction `v >= 32767 ? v - 65536 : v`. Its
      boundary is one below two's complement, so 0x7FFF reads as -32769. On
      a 16-bit word it keeps the value modulo 2^16 and lands in
      [-32769, 32766]. */
  function SignCorrect(v: int): (r: int)
    ensures 0 <= v < 0x10000 ==> -32769 <= r <= 32766 && (r - v) % 0x10000 == 0
  {
    if v >= 32767 then v - 65536 else v
  }

  /** The 16-bit word that carries a signed axis value. */
  function Unsigned16(r: int): (v: int)
    ensures 0 <= v < 0x10000
  {
    r % 0x10000
  }

  /** Two's-complement reading of a 16-bit word, as the chip's data sheet means it. */
  function TwosComplement16(v: int): (r: int) {
    if v >= 0x8000 then v - 0x10000 else v
  }

  /** Reducing a corrected word modulo 65536 gives back the word. */
  lemma ReduceSignCorrected(v: int)
    requires 0 <= v < 0x10000
    ensures Unsigned16(SignCorrect(v)) == v
  {
  }

  /** Correcting the 16-bit residue of an axis value in the decoded range
      gives back the value. */
  lemma SignCorrectReduced(r: int)
    requires -32769 <= r <= 32766
    ensures SignCorrect(Unsigned16(r)) == r
  {
  }

  /** The sign correction agrees with two's complement on every word but 0x7FFF. */
  lemma SignCorrectVersusTwosComplement(v: int)
    requires 0 <= v < 0x10000
    ensures SignCorrect(v) == TwosComplement16(v) <==> v != 0x7FFF
  {
  }

  lemma SignCorrectSamples()
    ensures SignCorrect(32766) == 32766
    ensures SignCorrect(32767) == -32769
    ensures SignCorrect(65535) == -1
    ensures SignCorrect(0) == 0
  {
  }

  /** Two words decode to the same value only if they are the same word. */
  lemma SignCorrectInjective(v: int, w: int)
    requires 0 <= v < 0x10000 && 0 <= w < 0x10000
    ensures SignCorrect(v) == SignCorrect(w) <==> v == w
  {
  }

  /** The axis values a 16-bit word can decode to. */
  predicate InAxisRange(a: Axes) {
    -32769 <= a.x <= 32766 && -32769 <= a.y <= 32766 && -32769 <= a.z <= 32766
  }

  /** A word as two bytes, high byte first. */
  function WordBytes(v: int): (b: seq<byte>)
    requires 0 <= v < 0x10000
    ensures |b| == 2 && Word(b[0], b[1]) == v
  {
    [v / 256, v % 256]
  }

  /** The bytes of a word determine it and it determines its bytes. */
  lemma WordBytesOfWord(hi: byte, lo: byte)
    ensures WordBytes(Word(hi, lo)) == [hi, lo]
  {
    var v := Word(hi, lo);
    ModUnique(v, 256, hi, lo);
    assert v / 256 == hi;
  }

  /** Re-encoding the axis value of a word gives back the word's bytes. */
  lemma AxisRoundTrip(hi: byte, lo: byte)
    ensures WordBytes(Unsigned16(SignCorrect(Word(hi, lo)))) == [hi, lo]
  {
    ReduceSignCorrected(Word(hi, lo));
    WordBytesOfWord(hi, lo);
  }

  // ---------------------------------------------------------------------
  // Magnetometer burst: registers 3..8, X, Z, Y, each high byte first

  /** The axes in a 6-byte magnetometer burst. The chip lays the axes out
      as X, Z, Y, so y comes from the last two bytes and z from the middle two. */
  function DecodeMag(g: seq<byte>): (a: Axes)
    requires |g| == 6
    ensures InAxisRange(a)
  {
    Axes(SignCorrect(Word(g[0], g[1])), SignCorrect(Word(g[4], g[5])), SignCorrect(Word(g[2], g[3])))
  }

  /** The burst the magnetometer sends for given axes. */
  function EncodeMag(a: Axes): (g: seq<byte>)
    ensures |g| == 6
  {
    WordBytes(Unsigned16(a.x)) + WordBytes(Unsigned16(a.z)) + WordBytes(Unsigned16(a.y))
  }

  lemma MagDecodeEncode(a: Axes)
    requires InAxisRange(a)
    ensures DecodeMag(EncodeMag(a)) == a
  {
    var x, z, y := WordBytes(Unsigned16(a.x)), WordBytes(Unsigned16(a.z)), WordBytes(Unsigned16(a.y));
    assert EncodeMag(a) == [x[0], x[1], z[0], z[1], y[0], y[1]];
    SignCorrectReduced(a.x);
    SignCorrectReduced(a.y);
    SignCorrectReduced(a.z);
  }

  lemma MagEncodeDecode(g: seq<byte>)
    requires |g| == 6
    ensures EncodeMag(DecodeMag(g)) == g
  {
    AxisRoundTrip(g[0], g[1]);
    AxisRoundTrip(g[2], g[3]);
    AxisRoundTrip(g[4], g[5]);
    assert EncodeMag(DecodeMag(g)) == [g[0], g[1]] + [g[2], g[3]] + [g[4], g[5]];
  }

  lemma MagByteOrderSample()
    ensures DecodeMag([0x01, 0x00, 0x00, 0x02, 0x00, 0x03]) == Axes(256, 3, 2)
  {
  }

  /** The overflow flag of a magnetometer sample: some axis saturated. */
  predicate Overflow(a: Axes) {
    a.x == SATURATION || a.y == SATURATION || a.z == SATURATION
  }

  lemma WordIsSaturation(hi: byte, lo: byte)
    ensures SignCorrect(Word(hi, lo)) == SATURATION <==> hi == 0xF0 && lo == 0
  {
  }

  /** A decoded sample overflows exactly when one axis arrived as the word 0xF000. */
  lemma OverflowFromBurst(g: seq<byte>)
    requires |g| == 6
    ensures Overflow(DecodeMag(g)) <==>
              (g[0] == 0xF0 && g[1] == 0) || (g[2] == 0xF0 && g[3] == 0) || (g[4] == 0xF0 && g[5] == 0)
  {
    WordIsSaturation(g[0], g[1]);
    WordIsSaturation(g[2], g[3]);
    WordIsSaturation(g[4], g[5]);
  }

  // ---------------------------------------------------------------------
  // Accelerometer burst: registers 0x28..0x2D, X, Y, Z, each low byte first

  /** The axes in a 6-byte accelerometer burst. */
  function DecodeAcc(d: seq<byte>): (a: Axes)
    requires |d| == 6
    ensures InAxisRange(a)
  {
    Axes(SignCorrect(Word(d[1], d[0])), SignCorrect(Word(d[3], d[2])), SignCorrect(Word(d[5], d[4])))
  }

  /** The burst the accelerometer sends for given axes. */
  function EncodeAcc(a: Axes): (d: seq<byte>)
    ensures |d| == 6
  {
    var x, y, z := WordBytes(Unsigned16(a.x)), WordBytes(Unsigned16(a.y)), WordBytes(Unsigned16(a.z));
    [x[1], x[0], y[1], y[0], z[1], z[0]]
  }

  lemma AccDecodeEncode(a: Axes)
    requires InAxisRange(a)
    ensures DecodeAcc(EncodeAcc(a)) == a
  {
    SignCorrectReduced(a.x);
    SignCorrectReduced(a.y);
    SignCorrectReduced(a.z);
  }

  lemma AccEncodeDecode(d: seq<byte>)
    requires |d| == 6
    ensures EncodeAcc(DecodeAcc(d)) == d
  {
    AxisRoundTrip(d[1], d[0]);
    AxisRoundTrip(d[3], d[2]);
    AxisRoundTrip(d[5], d[4]);
  }

  lemma AccByteOrderSample()
    ensures DecodeAcc([0x34, 0x12, 0x00, 0x00, 0xFF, 0x7F]) == Axes(4660, 0, -32769)
  {
  }

  // ---------------------------------------------------------------------
  // Configuration bytes

  /** The value written to the mode register: the low two bits of the request. */
  function ModeByte(mode: int): (r: int)
    ensures 0 <= r <= 3
  {
    mode % 4
  }

  /** `mode & 0x03` is the mode byte. */
  lemma ModeExpression(mode: int)
    ensures And(mode, 3) == ModeByte(mode)
  {
    AndThree(mode);
  }

  /** Masking keeps a mode that already fits, is idempotent, ignores
      multiples of 4, and so maps 7 to 3. */
  lemma ModeByteMasks(mode: int)
    ensures ModeByte(mode) == mode <==> 0 <= mode <= 3
    ensures ModeByte(ModeByte(mode)) == ModeByte(mode)
    ensures ModeByte(mode + 4) == ModeByte(mode)
    ensures ModeByte(7) == ModeByte(3) == 3
  {
  }

  /** Configuration register A as the setup operation packs it: the
      measurement mode in bits 0-1, the output-rate code in bits 2-4 and the
      averaging code in bits 5-6. Each field is the argument masked to its
      width, except that a falsy ms (left out or 0) becomes 0 and a falsy
      dout becomes 4. */
  function ConfigAByte(sample: Arg, dout: Arg, ms: Arg): (r: int)
    ensures 0 <= r < 0x80
    ensures UnpackConfigA(r) ==
              ConfigA(IntOf(sample) % 4,
                      if Truthy(dout) then IntOf(dout) % 8 else 4,
                      if Truthy(ms) then IntOf(ms) % 4 else 0)
  {
    var m := if Truthy(ms) then IntOf(ms) % 4 else 0;
    var d := if Truthy(dout) then IntOf(dout) % 8 else 4;
    var s := IntOf(sample) % 4;
    UnpackPacked(s, d, m);
    32 * s + 4 * d + m
  }

  /** The fields of a configuration register A value. */
  function UnpackConfigA(c: byte): (f: ConfigA) {
    ConfigA(c / 32 % 4, c / 4 % 8, c % 4)
  }

  /** Unpacking recovers the fields that were packed. */
  lemma UnpackPacked(s: int, d: int, m: int)
    requires 0 <= s < 4 && 0 <= d < 8 && 0 <= m < 4
    ensures UnpackConfigA(32 * s + 4 * d + m) == ConfigA(s, d, m)
  {
    var c := 32 * s + 4 * d + m;
    ModUnique(c, 4, 8 * s + d, m);
    ModUnique(8 * s + d, 8, s, d);
    ModUnique(c, 32, s, 4 * d + m);
  }

  /** A register A value is determined by its fields. */
  lemma PackedUnpacked(c: byte)
    requires c < 0x80
    ensures c == 32 * (c / 32 % 4) + 4 * (c / 4 % 8) + c % 4
  {
    var q := c / 4;
    assert c == 4 * q + c % 4;
    assert q == 8 * (q / 8) + q % 8;
    assert c / 32 == q / 8;
  }

  /** `ms | (dout << 2) | (sample << 5)` on fields that fit their widths
      is their packed value. */
  lemma PackExpression(s: int, d: int, m: int)
    requires 0 <= s < 4 && 0 <= d < 8 && 0 <= m < 4
    ensures Or(Or(m, Shl(d, 2)), Shl(s, 5)) == 32 * s + 4 * d + m
  {
    var p2, p5 := Pow2(2), Pow2(5);
    assert p2 == 4 && p5 == 32;
    var lo := Or(m, Shl(d, 2));
    OrShifted(d, 2, p2, m);
    OrShifted(s, 5, p5, lo);
  }

  /** The setup operation's own expression: with ms, dout and sample
      reduced as it reduces them (`ms&3` or 0, `dout&7` or 4, `sample&3`),
      `ms | (dout << 2) | (sample << 5)` is the register A value. */
  lemma ConfigAExpression(sample: Arg, dout: Arg, ms: Arg, s: int, d: int, m: int)
    requires m == if Truthy(ms) then And(IntOf(ms), 3) else 0
    requires d == if Truthy(dout) then And(IntOf(dout), 7) else 4
    requires s == And(IntOf(sample), 3)
    ensures Or(Or(m, Shl(d, 2)), Shl(s, 5)) == ConfigAByte(sample, dout, ms)
  {
    AndThree(IntOf(ms));
    AndSeven(IntOf(dout));
    AndThree(IntOf(sample));
    assert m == if Truthy(ms) then IntOf(ms) % 4 else 0;
    assert d == if Truthy(dout) then IntOf(dout) % 8 else 4;
    assert s == IntOf(sample) % 4;
    PackExpression(s, d, m);
  }

  /** With dout and ms left out (or 0) and a sample code that is 0 modulo 4,
      as in `setup(0)`, register A gets 0x10: measurement 0, rate code 4, no
      averaging. */
  lemma SetupDefaults(sample: Arg, dout: Arg, ms: Arg)
    requires IntOf(sample) % 4 == 0 && !Truthy(dout) && !Truthy(ms)
    ensures ConfigAByte(sample, dout, ms) == 0x10
  {
    var r := ConfigAByte(sample, dout, ms);
    assert UnpackConfigA(r) == ConfigA(0, 4, 0);
    PackedUnpacked(r);
  }

  /** Every combination of fields can be written: a dout that is non-zero
      and congruent to the rate code selects it (8 for rate code 0, since
      an explicit 0 is falsy). */
  lemma ConfigAReachable(s: int, d: int, m: int, dout: int)
    requires 0 <= s < 4 && 0 <= d < 8 && 0 <= m < 4
    requires dout != 0 && dout % 8 == d
    ensures ConfigAByte(Num(s), Num(dout), Num(m)) == 32 * s + 4 * d + m
  {
    var r := ConfigAByte(Num(s), Num(dout), Num(m));
    assert UnpackConfigA(r) == ConfigA(s, d, m);
    PackedUnpacked(r);
  }

  /** An explicit dout of 0 is falsy, so it selects the default rate code 4. */
  lemma SetupZeroRateIsDefault(sample: Arg, ms: Arg)
    ensures ConfigAByte(sample, Num(0), ms) == ConfigAByte(sample, Num(4), ms) == ConfigAByte(sample, Undefined, ms)
  {
    var r0, r4, ru := ConfigAByte(sample, Num(0), ms), ConfigAByte(sample, Num(4), ms), ConfigAByte(sample, Undefined, ms);
    assert UnpackConfigA(r0) == UnpackConfigA(r4) == UnpackConfigA(ru);
    PackedUnpacked(r0);
    PackedUnpacked(r4);
    PackedUnpacked(ru);
  }

  /** The value written to configuration register B for a requested gain:
      the code in bits 5-7. */
  function GainByte(gain: int): (r: int)
    ensures 0 <= r <= 0xE0 && r % 32 == 0
  {
    gain % 8 * 32
  }

  /** The gain code in a value read back from register B: its top three bits. */
  function GainCode(b: byte): (g: int)
    ensures 0 <= g <= 7
  {
    b / 32
  }

  /** `(gain & 7) << 5` is the register B value. */
  lemma GainByteExpression(gain: int)
    ensures Shl(And(gain, 7), 5) == GainByte(gain)
  {
    AndSeven(gain);
    assert Pow2(5) == 32;
    ShlSmall(gain % 8, 5);
  }

  /** `b >> 5` is the gain code in a read-back byte. */
  lemma GainCodeExpression(b: byte)
    ensures Shr(b, 5) == GainCode(b)
  {
    assert Pow2(5) == 32;
    ShrSmall(b, 5);
  }

  /** Reading back a written register B value gives the requested code
      modulo 8, and a read-back value determines its code and nothing below it. */
  lemma GainRoundTrip(gain: int, b: byte)
    ensures GainCode(GainByte(gain)) == gain % 8
    ensures GainByte(GainCode(b)) == b - b % 32
  {
    var r := GainByte(gain);
    ModUnique(r, 32, gain % 8, 0);
  }
}
