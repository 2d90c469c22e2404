# LSM303DLHC driver model

A Dafny model of the Espruino driver for the LSM303DLHC, a combined
magnetometer and accelerometer on an I2C bus. The chip answers at two
addresses: the magnetometer at 0x1E and the accelerometer at 0x19 (0x32
shifted right once). The driver object keeps the magnetometer's
acquisition mode and two gain codes:

- `gain` is the code that the next magnetometer sample is scaled with.
- `ngain` is the code last read back from the chip. It becomes `gain`
  only after one more sample.

The project has four modules:

- `JsBits` (js_bits.dfy) gives JavaScript's `|`, `&`, `<<` and `>>` on
  numbers. Each operand is converted to a 32-bit integer (ToInt32 or
  ToUint32) and the shift count is taken modulo 32. `Arg` models
  JavaScript truthiness: a parameter is either undefined or a number, and
  0 is falsy. The definitions `Truthy` (the test of a `(x) ? … : …`) and
  `IntOf` (undefined becomes 0 before a bit operator) are what
  `UndefinedOperand`, `ConfigAExpression` and `SetupZeroRateIsDefault`
  are about. The small lemmas in this module show when these operators
  are plain arithmetic.
- `Protocol` (protocol.dfy) holds the pure part:
  - the bus addresses;
  - rebuilding 16-bit words from bytes;
  - the driver's sign correction;
  - the magnetometer's big-endian X, Z, Y byte order;
  - the accelerometer's little-endian X, Y, Z order;
  - the overflow flag, defined by `Overflow` (some axis is -4096) and
    characterised on raw bytes by `WordIsSaturation` and
    `OverflowFromBurst`;
  - the mode, configuration-register-A and gain bytes.

  Each decoder has an encoder, proved to be its inverse in both
  directions. Each byte the driver writes is tied to the JavaScript
  expression it comes from.
- `I2C` (i2c.dfy) is the bus as the driver sees it. A `Bus` object logs
  every transfer the driver asks for and plays back a scripted stream of
  the bytes the chip answers with.
- `Driver` (driver.dfy) is the class `LSM303DLHC`. It has the driver's
  mutable fields and one method per operation. Each method computes the
  way the source does, with the JavaScript operators. Its contract states
  that method's transfers, its result and its new fields, in terms of the
  `Protocol` functions. `readAcc` builds its three words in a
  three-element array and sign-corrects them in place, as the source
  does.

The driver's sign correction subtracts 65536 from every word of at least
32767, not 32768. So 0x7FFF decodes as -32769 instead of 32767, and decoded
axes lie in [-32769, 32766]. The model keeps this behaviour.
`Protocol.SignCorrectVersusTwosComplement` proves that 0x7FFF is the only
word on which it differs from 16-bit two's complement.

## Model

| member | source | states |
|---|---|---|
| Protocol.AccAddressExpression | devices/LSM303DLHC.js:32 | the accelerometer's address `0x32 >> 1` is 0x19 |
| Protocol.AutoIncrementExpression | devices/LSM303DLHC.js:111-113 | for a 7-bit register number, the or of reg with 0x80 is reg + 0x80 (bit 7 set, asking the chip to auto-increment) |
| Protocol.Word | devices/LSM303DLHC.js:55-57 | a word rebuilt from two bytes lies in [0, 0xFFFF] |
| Protocol.WordExpression | devices/LSM303DLHC.js:55-57 | hi shifted left by 8 or-ed with lo, in either order, both equal hi*256 + lo for bytes |
| Protocol.SignCorrect | devices/LSM303DLHC.js:58-60 | on a 16-bit word the corrected value lies in [-32769, 32766] and is congruent to the word modulo 65536 |
| Protocol.ReduceSignCorrected | devices/LSM303DLHC.js:58-60 | reducing a corrected 16-bit word modulo 65536 gives back the word |
| Protocol.SignCorrectReduced | devices/LSM303DLHC.js:58-60 | sign-correcting the 16-bit residue of a value in [-32769, 32766] gives back the value |
| Protocol.SignCorrectVersusTwosComplement | devices/LSM303DLHC.js:58-60 | the correction agrees with 16-bit two's complement exactly when the word is not 0x7FFF |
| Protocol.SignCorrectSamples | devices/LSM303DLHC.js:58-60 | 32766 stays 32766, 32767 becomes -32769, 65535 becomes -1 and 0 stays 0 |
| Protocol.SignCorrectInjective | devices/LSM303DLHC.js:58-60 | distinct 16-bit words give distinct corrected values, in both directions |
| Protocol.WordBytes | devices/LSM303DLHC.js:55-57 | the byte pair of a word rebuilds that word |
| Protocol.WordBytesOfWord | devices/LSM303DLHC.js:55-57 | splitting a rebuilt word gives back its two bytes |
| Protocol.AxisRoundTrip | devices/LSM303DLHC.js:55-60 | a byte pair survives rebuilding, sign correction, reduction and splitting |
| Protocol.DecodeMag | devices/LSM303DLHC.js:54-60 | the six-byte burst decodes to three axes, each in [-32769, 32766]; X is bytes 0-1, Z bytes 2-3, Y bytes 4-5, high byte first |
| Protocol.EncodeMag | devices/LSM303DLHC.js:54-60 | an axes value encodes to a six-byte burst |
| Protocol.MagDecodeEncode | devices/LSM303DLHC.js:54-60 | decoding the encoding of in-range axes gives them back |
| Protocol.MagEncodeDecode | devices/LSM303DLHC.js:54-60 | encoding the decoding of any six-byte burst gives it back, so decoding loses nothing |
| Protocol.MagByteOrderSample | devices/LSM303DLHC.js:55-57 | the burst 01 00 00 02 00 03 is x = 256, y = 3, z = 2 |
| Protocol.WordIsSaturation | devices/LSM303DLHC.js:61 | an axis is -4096 exactly when its bytes are F0 00 |
| Protocol.OverflowFromBurst | devices/LSM303DLHC.js:54-61 | the overflow flag is set exactly when one of the three byte pairs of the burst is F0 00 |
| Protocol.DecodeAcc | devices/LSM303DLHC.js:116-122 | the six accelerometer bytes decode to three axes in [-32769, 32766], low byte first, in X, Y, Z order |
| Protocol.EncodeAcc | devices/LSM303DLHC.js:116-122 | an axes value encodes to six accelerometer bytes |
| Protocol.AccDecodeEncode | devices/LSM303DLHC.js:116-122 | decoding the encoding of in-range axes gives them back |
| Protocol.AccEncodeDecode | devices/LSM303DLHC.js:116-122 | encoding the decoding of any six bytes gives them back |
| Protocol.AccByteOrderSample | devices/LSM303DLHC.js:118-122 | the bytes 34 12 00 00 FF 7F are x = 0x1234, y = 0, z = -32769 |
| Protocol.ModeByte | devices/LSM303DLHC.js:66-67 | the mode written and stored is in [0, 3] |
| Protocol.ModeExpression | devices/LSM303DLHC.js:66-67 | `mode & 3` is the mode's residue modulo 4, negative modes included |
| Protocol.ModeByteMasks | devices/LSM303DLHC.js:66-67 | a mode is kept exactly when it is in [0, 3]; masking is idempotent and periodic in 4; setMode(7) selects the same mode as setMode(3) |
| Protocol.ConfigAByte | devices/LSM303DLHC.js:70-74 | register A's value is below 0x80 and holds the averaging code sample mod 4, the rate code (dout mod 8, or 4 when dout is falsy) and the measurement mode (ms mod 4, or 0 when ms is falsy) |
| Protocol.UnpackPacked | devices/LSM303DLHC.js:74 | the three fields packed at bits 5-6, 2-4 and 0-1 unpack to themselves |
| Protocol.PackedUnpacked | devices/LSM303DLHC.js:74 | every value below 0x80 is the packing of its unpacked fields |
| Protocol.PackExpression | devices/LSM303DLHC.js:74 | ms or-ed with dout shifted left by 2 and sample shifted left by 5, on in-range fields is 32*sample + 4*dout + ms |
| Protocol.ConfigAExpression | devices/LSM303DLHC.js:71-74 | the setup expression, with the fields reduced as the driver reduces them, is the register A value |
| Protocol.SetupDefaults | devices/LSM303DLHC.js:71-74 | with dout and ms falsy and sample 0 modulo 4 (setup(0)), register A gets 0x10 |
| Protocol.ConfigAReachable | devices/LSM303DLHC.js:71-74 | every combination of the three fields can be written, rate code 0 via dout = 8 |
| Protocol.SetupZeroRateIsDefault | devices/LSM303DLHC.js:72 | dout = 0, dout = 4 and an undefined dout write the same register A value |
| Protocol.GainByte | devices/LSM303DLHC.js:78 | the register B value written has its gain in bits 5-7 and nothing below |
| Protocol.GainCode | devices/LSM303DLHC.js:80 | a read-back register B byte gives a gain code in [0, 7] |
| Protocol.GainByteExpression | devices/LSM303DLHC.js:78 | `(gain & 7) << 5` is the register B value, for every integer gain |
| Protocol.GainCodeExpression | devices/LSM303DLHC.js:80 | `b >> 5` is the gain code of a read-back byte |
| Protocol.GainRoundTrip | devices/LSM303DLHC.js:78-80 | reading back a written gain gives the gain modulo 8; re-encoding a read-back code clears the low five bits |
| JsBits.UndefinedOperand | devices/LSM303DLHC.js:73 | undefined and 0 are falsy, and `undefined & m` is 0 |
| JsBits.Or | devices/LSM303DLHC.js:55-57 | JavaScript bit-wise or of x and y gives a signed 32-bit integer |
| JsBits.And | devices/LSM303DLHC.js:66-73 | JavaScript `x & y` gives a signed 32-bit integer, and with a non-negative mask y a value in [0, y] |
| JsBits.Shl | devices/LSM303DLHC.js:74-78 | JavaScript `x << n`, with the count taken modulo 32, gives a signed 32-bit integer |
| JsBits.Shr | devices/LSM303DLHC.js:80 | JavaScript `x >> n` gives a signed 32-bit integer with the sign of the operand's 32-bit value |
| JsBits.AndThree | devices/LSM303DLHC.js:66-73 | a JavaScript `x & 3` is x modulo 4 for every integer x |
| JsBits.AndSeven | devices/LSM303DLHC.js:72-78 | a JavaScript `x & 7` is x modulo 8 for every integer x |
| JsBits.OrShifted | devices/LSM303DLHC.js:55-57 | or-ing a shifted value with one below the shift's power of two is addition, in both operand orders |
| Driver.LSM303DLHC.constructor | devices/LSM303DLHC.js:35-47 | stores bus and pin, takes mode (1 when falsy, otherwise unmasked), writes pointer 1 and reads register B; both gain codes become the read-back byte >> 5; writes [2, mode] to the magnetometer and [0x20, 0x27] to the accelerometer |
| Driver.LSM303DLHC.ReadC | devices/LSM303DLHC.js:50-63 | writes 3, reads six bytes and returns their magnetometer decoding and overflow flag, scaled with the old gain; gain becomes the old ngain; ngain and mode are unchanged |
| Driver.LSM303DLHC.SetMode | devices/LSM303DLHC.js:65-68 | writes [2, mode & 3] and stores that masked mode; the gain codes are unchanged |
| Driver.LSM303DLHC.Setup | devices/LSM303DLHC.js:70-75 | writes [0, register A value] to the magnetometer and nothing else |
| Driver.LSM303DLHC.SetGain | devices/LSM303DLHC.js:77-80 | writes [1, gain byte], then pointer 1, reads one byte; ngain becomes its gain code; gain and mode are unchanged |
| Driver.LSM303DLHC.WriteFnReg | devices/LSM303DLHC.js:96-98 | one write of [reg, val] to the given address |
| Driver.LSM303DLHC.ReadFnReg | devices/LSM303DLHC.js:100-104 | writes the register pointer, then reads count bytes and returns exactly the next count bytes from the chip |
| Driver.LSM303DLHC.WriteAccReg | devices/LSM303DLHC.js:107-109 | one write of [reg, val] to the accelerometer |
| Driver.LSM303DLHC.ReadAccReg | devices/LSM303DLHC.js:111-114 | writes reg with bit 7 set to the accelerometer, then reads count bytes from it |
| Driver.LSM303DLHC.ReadAcc | devices/LSM303DLHC.js:115-124 | writes 0xA8 to 0x19, reads six bytes and returns their little-endian accelerometer decoding |
| Driver.GainChangeLatency | devices/LSM303DLHC.js:50-80 | after setGain, the next sample is scaled with the previous gain, and the sample after it with the read-back code |

## Left out

- `pinMode` and `setWatch` are not modelled. They configure a pin and register an interrupt callback, which is I/O outside the bus.
- The mode branch of `setGain` (lines 81-86) is not modelled. Whenever the mode is not 2, including the constructor's default of 1, it reads the undeclared `c`, which throws a ReferenceError. Were `c` defined, `this.setmode(1)` would throw a TypeError, since the object has `setMode` and no `setmode`. So in the source, such a `setGain` call ends in an exception after line 80 has already set `ngain`. `Driver.LSM303DLHC.SetGain` and `Driver.GainChangeLatency` model only the path through line 80 that returns normally.
- `reads` (lines 89-94) is not modelled. It registers a pin-change callback, which is I/O outside the bus, and then calls the missing `setmode`, which throws a TypeError.
- `exports.connect` is not modelled. It passes the name `range`, which it never declares, instead of `mode`. When no global `range` exists, reading that name at line 28 throws a ReferenceError. Otherwise the global's value is passed as the mode, so with `range` undefined the constructor falls back to mode 1. The model starts from the constructor.
- The float scale table and the multiplication of each axis by the scale factor are not modelled. `ReadC` returns the unscaled axes together with the gain code whose factor the source would apply.
- Transport failures are not modelled. The bus always succeeds, and every read requires the script to hold enough bytes. The model therefore does not capture that a failed read in `readc` has already advanced `gain`.
- `INT_REG` (line 33) is unused by the driver and is left out.
- Driver.LSM303DLHC.constructor: the mode parameter is an undefined value or an integer. Other JavaScript values (strings, NaN, objects) are not modelled.
- Driver.LSM303DLHC.Setup: the sample, dout and ms parameters are undefined values or integers. Other JavaScript values are not modelled.
- Driver.LSM303DLHC.SetMode: the requested mode is an integer. An undefined argument, which JavaScript's `&` treats as 0, and non-integers such as 1.5 (`1.5 & 3` is 1) are not modelled.
- Driver.LSM303DLHC.SetGain: the requested gain is an integer. An undefined argument, which `&` treats as 0, and non-integers are not modelled.
- `readFrom` returns an array. `readFrom(...) >> 5` uses its only element, which the model reads as the first byte of the reply.
