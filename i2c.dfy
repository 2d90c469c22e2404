/** The I2C bus as the driver sees it: an object it writes to and reads
    from. The transport itself is not modelled; instead the bus keeps the
    log of every transfer the driver asked for and plays back a scripted
    stream of the bytes the devices answer with. */
module I2C {
  import opened JsBits

  /** One call on the bus. A write of a single number is logged as a
      one-element payload, which is how the transport sends it. */
  datatype Transfer = Write(addr: int, data: seq<int>) | Read(addr: int, count: nat)

  class Bus {
    /** Every transfer so far, oldest first. */
    var log: seq<Transfer>
    /** The bytes the devices will answer the next reads with. */
    var incoming: seq<byte>

    constructor (script: seq<byte>)
      ensures log == [] && incoming == script
    {
      log := [];
      incoming := script;
    }

    /** `writeTo(addr, data)`. */
    method WriteTo(addr: int, data: seq<int>)
      modifies this
      ensures log == old(log) + [Write(addr, data)]
      ensures incoming == old(incoming)
    {
      log := log + [Write(addr, data)];
    }

    /** `readFrom(addr, count)`: the next count bytes of the script. */
    method ReadFrom(addr: int, count: nat) returns (r: seq<byte>)
      requires count <= |incoming|
      modifies this
      ensures r == old(incoming)[..count] && |r| == count
      ensures incoming == old(incoming)[count..]
      ensures log == old(log) + [Read(addr, count)]
    {
      r := incoming[..count];
      incoming := incoming[count..];
      log := log + [Read(addr, count)];
    }
  }
}
