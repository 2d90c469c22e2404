/** The LSM303DLHC driver object. It owns the bus, the data-ready pin
    number, the cached acquisition mode and two gain codes: `gain`, the
    code the next magnetometer sample is scaled with, and `ngain`, the code
    last read back from the chip, which becomes `gain` after one sample. */
module Driver {
  import opened JsBits
  import opened Protocol
  import opened I2C

  /** A magnetometer sample before scaling: the signed axes, the overflow
      flag, and the gain code whose scale factor the sample is multiplied by. */
  datatype MagSample = MagSample(axes: Axes, overflow: bool, gain: int)

  class LSM303DLHC {
    const i2c: Bus
    const drdy: int
    /** The magnetometer's bus address. */
    const a: int
    var mode: int
    var gain: int
    var ngain: int

    /** Both cached gain codes are 3-bit values read back from register B. */
    ghost predicate Valid()
      reads this
    {
      a == COMPASS_REG && 0 <= gain <= 7 && 0 <= ngain <= 7
    }

    /** Reads the current gain code from register B into both gain fields,
        selects the given mode (1 when it is falsy, and unmasked otherwise)
        and powers up the accelerometer with all three axes enabled. */
    constructor (i2c: Bus, drdy: int, mode: Arg)
      requires |i2c.incoming| >= 1
      modifies i2c
      ensures Valid()
      ensures this.i2c == i2c && this.drdy == drdy
      ensures this.mode == if Truthy(mode) then mode.n else 1
      ensures gain == ngain == GainCode(old(i2c.incoming)[0])
      ensures i2c.incoming == old(i2c.incoming)[1..]
      ensures i2c.log == old(i2c.log) + [Write(COMPASS_REG, [1]), Read(COMPASS_REG, 1),
                                         Write(COMPASS_REG, [2, this.mode]), Write(ACC_REG, [0x20, 0x27])]
    {
      this.i2c := i2c;
      this.mode := if Truthy(mode) then mode.n else 1;
      this.drdy := drdy;
      this.a := COMPASS_REG;
      new;
      i2c.WriteTo(a, [1]);
      var b := i2c.ReadFrom(a, 1);
      GainCodeExpression(b[0]);
      gain := Shr(b[0], 5);
      ngain := gain;
      i2c.WriteTo(a, [2, this.mode]);
      WriteAccReg(0x20, 0x27);
    }

    /** Reads one magnetometer sample. It is scaled with the gain code held
        before the call; only then does the code last read back take effect. */
    method ReadC() returns (s: MagSample)
      requires Valid() && |i2c.incoming| >= 6
      modifies this, i2c
      ensures Valid()
      ensures s.axes == DecodeMag(old(i2c.incoming)[..6])
      ensures s.overflow == Overflow(s.axes)
      ensures s.gain == old(gain)
      ensures gain == old(ngain) && ngain == old(ngain) && mode == old(mode)
      ensures i2c.incoming == old(i2c.incoming)[6..]
      ensures i2c.log == old(i2c.log) + [Write(a, [3]), Read(a, 6)]
    {
      i2c.WriteTo(a, [3]);
      var f := gain;
      gain := ngain;
      var gdat := i2c.ReadFrom(a, 6);
      WordExpression(gdat[0], gdat[1]);
      WordExpression(gdat[4], gdat[5]);
      WordExpression(gdat[2], gdat[3]);
      var x := Or(Shl(gdat[0], 8), gdat[1]);
      var y := Or(Shl(gdat[4], 8), gdat[5]);
      var z := Or(Shl(gdat[2], 8), gdat[3]);
      x, y, z := SignCorrect(x), SignCorrect(y), SignCorrect(z);
      var o := x == -4096 || y == -4096 || z == -4096;
      s := MagSample(Axes(x, y, z), o, f);
    }

    /** Selects the acquisition mode, masked to two bits. */
    method SetMode(requested: int)
      requires Valid()
      modifies this, i2c
      ensures Valid()
      ensures mode == ModeByte(requested)
      ensures gain == old(gain) && ngain == old(ngain)
      ensures i2c.incoming == old(i2c.incoming)
      ensures i2c.log == old(i2c.log) + [Write(a, [2, ModeByte(requested)])]
    {
      ModeExpression(requested);
      i2c.WriteTo(a, [2, And(requested, 3)]);
      mode := And(requested, 3);
    }

    /** Writes configuration register A from the averaging code `sample`, the
        output-rate code `dout` and the measurement mode `ms`. */
    method Setup(sample: Arg, dout: Arg, ms: Arg)
      requires Valid()
      modifies i2c
      ensures i2c.incoming == old(i2c.incoming)
      ensures i2c.log == old(i2c.log) + [Write(a, [0, ConfigAByte(sample, dout, ms)])]
    {
      var m := if Truthy(ms) then And(IntOf(ms), 3) else 0;
      var d := if Truthy(dout) then And(IntOf(dout), 7) else 4;
      var s := And(IntOf(sample), 3);
      ConfigAExpression(sample, dout, ms, s, d, m);
      i2c.WriteTo(a, [0, Or(Or(m, Shl(d, 2)), Shl(s, 5))]);
    }

    /** Requests a gain code and reads back the one the chip applied, which
        is stored in `ngain` only: the current `gain` is left alone. */
    method SetGain(requested: int)
      requires Valid() && |i2c.incoming| >= 1
      modifies this, i2c
      ensures Valid()
      ensures ngain == GainCode(old(i2c.incoming)[0])
      ensures gain == old(gain) && mode == old(mode)
      ensures i2c.incoming == old(i2c.incoming)[1..]
      ensures i2c.log == old(i2c.log) + [Write(a, [1, GainByte(requested)]), Write(a, [1]), Read(a, 1)]
    {
      GainByteExpression(requested);
      i2c.WriteTo(a, [1, Shl(And(requested, 7), 5)]);
      i2c.WriteTo(a, [1]);
      var b := i2c.ReadFrom(a, 1);
      GainCodeExpression(b[0]);
      ngain := Shr(b[0], 5);
    }

    /** Writes one register of the device at address fn. */
    method WriteFnReg(fn: int, reg: int, val: int)
      modifies i2c
      ensures i2c.incoming == old(i2c.incoming)
      ensures i2c.log == old(i2c.log) + [Write(fn, [reg, val])]
    {
      i2c.WriteTo(fn, [reg, val]);
    }

    /** Sets the register pointer of the device at address fn and reads
        count bytes from there. */
    method ReadFnReg(fn: int, reg: int, count: nat) returns (r: seq<byte>)
      requires count <= |i2c.incoming|
      modifies i2c
      ensures r == old(i2c.incoming)[..count]
      ensures i2c.incoming == old(i2c.incoming)[count..]
      ensures i2c.log == old(i2c.log) + [Write(fn, [reg]), Read(fn, count)]
    {
      i2c.WriteTo(fn, [reg]);
      r := i2c.ReadFrom(fn, count);
    }

    method WriteAccReg(reg: int, val: int)
      modifies i2c
      ensures i2c.incoming == old(i2c.incoming)
      ensures i2c.log == old(i2c.log) + [Write(ACC_REG, [reg, val])]
    {
      WriteFnReg(ACC_REG, reg, val);
    }

    /** Reads count accelerometer registers from reg on, with bit 7 of the
        register pointer set so that the chip auto-increments it. */
    method ReadAccReg(reg: int, count: nat) returns (r: seq<byte>)
      requires count <= |i2c.incoming|
      modifies i2c
      ensures r == old(i2c.incoming)[..count]
      ensures i2c.incoming == old(i2c.incoming)[count..]
      ensures i2c.log == old(i2c.log) + [Write(ACC_REG, [Or(reg, 0x80)]), Read(ACC_REG, count)]
    {
      r := ReadFnReg(ACC_REG, Or(reg, 0x80), count);
    }

    /** Reads the three accelerometer axes, unscaled. The words are rebuilt
        in a three-element array whose entries are sign-corrected in place. */
    method ReadAcc() returns (acc: Axes)
      requires |i2c.incoming| >= 6
      modifies i2c
      ensures acc == DecodeAcc(old(i2c.incoming)[..6])
      ensures i2c.incoming == old(i2c.incoming)[6..]
      ensures i2c.log == old(i2c.log) + [Write(ACC_REG, [0xA8]), Read(ACC_REG, 6)]
    {
      AutoIncrementExpression(ACC_OUT);
      var d := ReadAccReg(ACC_OUT, 6);
      WordExpression(d[1], d[0]);
      WordExpression(d[3], d[2]);
      WordExpression(d[5], d[4]);
      var v := new int[3];
      v[0], v[1], v[2] := Or(d[0], Shl(d[1], 8)), Or(d[2], Shl(d[3], 8)), Or(d[4], Shl(d[5], 8));
      if v[0] >= 32767 { v[0] := v[0] - 65536; }
      if v[1] >= 32767 { v[1] := v[1] - 65536; }
      if v[2] >= 32767 { v[2] := v[2] - 65536; }
      acc := Axes(v[0], v[1], v[2]);
    }
  }

  /** The one-sample latency of a gain change: after `setGain`, the next
      sample is still scaled with the old code and the one after it with
      the code the chip reported back. */
  method GainChangeLatency(d: LSM303DLHC, requested: int) returns (first: MagSample, second: MagSample)
    requires d.Valid() && |d.i2c.incoming| >= 13
    modifies d, d.i2c
    ensures d.Valid()
    ensures first.gain == old(d.gain)
    ensures second.gain == GainCode(old(d.i2c.incoming)[0]) == d.gain
    ensures first.axes == DecodeMag(old(d.i2c.incoming)[1..7])
    ensures second.axes == DecodeMag(old(d.i2c.incoming)[7..13])
  {
    d.SetGain(requested);
    first := d.ReadC();
    second := d.ReadC();
  }
}
