/**
 * The MicroPython I2C wrapper used by the GPS reader (`mgps/micro_i2c.py`):
 * the little-endian byte codec of its word and byte transfers, the
 * read-only `i2cbus` attribute with its lazy connection, and the class-level
 * `scan`.
 *
 * The I2C bus object belongs to the MicroPython runtime. Here a connection
 * attempt is a parameter (the handle it produced, or `None` when it failed),
 * the bytes a read returns are a parameter, and the transfers the wrapper
 * asks of the bus are recorded in order.
 */
module MicroI2c {

  import opened Wrappers

  type byte = bv8

  function Pow256(n: nat): (p: nat)
    ensures p >= 1
  {
    if n == 0 then 1 else 256 * Pow256(n - 1)
  }

  /** The unsigned little-endian value of a byte string. */
  function FromLittleEndian(bs: seq<byte>): (v: nat)
    ensures v < Pow256(|bs|)
    decreases |bs|
  {
    if bs == [] then 0 else bs[0] as nat + 256 * FromLittleEndian(bs[1..])
  }

  lemma ByteOfInt(n: int)
    requires 0 <= n < 256
    ensures (n as byte) as int == n
  {
    var b := n as byte;
    assert (b as bv16) as int == b as int;
    assert n as bv16 == b as bv16;
  }

  lemma LittleEndianPair(bs: seq<byte>)
    requires |bs| == 2
    ensures FromLittleEndian(bs) == bs[0] as int + 256 * bs[1] as int
  {
    assert FromLittleEndian(bs[1..][1..]) == 0;
  }

  /** Shifting the high byte up and or-ing in the low byte adds them. */
  lemma ShiftOr(high: byte, low: byte)
    ensures (((high as bv16) << 8) | (low as bv16)) as int == high as int * 256 + low as int
  {
    var w := ((high as bv16) << 8) | (low as bv16);
    assert w == (high as bv16) * 256 + low as bv16;
    assert (high as bv16) as int == high as int;
  }

  /** The exceptions the wrapper lets through. */
  datatype Error =
    | AttributeError(name: string)  // the bus attribute is not a bus object
    | OverflowError                 // `to_bytes` of a value that does not fit

  /** `value.to_bytes(length, 'little')`: unsigned, so a negative value or
      one of more than `length` bytes raises `OverflowError`. */
  function ToBytes(value: int, length: nat): (r: Result<seq<byte>, Error>)
    ensures r.Success? <==> 0 <= value < Pow256(length)
    ensures r.Success? ==> |r.value| == length && FromLittleEndian(r.value) == value
    ensures r.Failure? ==> r.error == OverflowError
    decreases length
  {
    if value < 0 || value >= Pow256(length) then Failure(OverflowError)
    else if length == 0 then Success([])
    else
      var low, high := value % 256, value / 256;
      assert Pow256(length) == 256 * Pow256(length - 1);
      assert high < Pow256(length - 1);
      var rest := ToBytes(high, length - 1);
      var bs := [low as byte] + rest.value;
      ByteOfInt(low);
      assert bs[0] as int == low && bs[1..] == rest.value;
      assert FromLittleEndian(bs) == low + 256 * high;
      Success(bs)
  }

  /** Encoding what was decoded gives the bytes back. */
  lemma {:induction false} ToBytesOfValue(bs: seq<byte>)
    ensures ToBytes(FromLittleEndian(bs), |bs|) == Success(bs)
    decreases |bs|
  {
    if bs != [] {
      var v := FromLittleEndian(bs);
      ToBytesOfValue(bs[1..]);
      assert v / 256 == FromLittleEndian(bs[1..]) && v % 256 == bs[0] as int;
      assert [bs[0]] + bs[1..] == bs;
    }
  }

  /** The value `readWord` makes of its two-byte reply. */
  function DecodeWord(buffer: seq<byte>): (w: int)
    requires |buffer| == 2
    ensures w == buffer[0] as int + 256 * buffer[1] as int
    ensures w == FromLittleEndian(buffer) && 0 <= w < 65536
  {
    ShiftOr(buffer[1], buffer[0]);
    LittleEndianPair(buffer);
    (((buffer[1] as bv16) << 8) | (buffer[0] as bv16)) as int
  }

  /** `writeWord` sends the low byte first, and `readWord` reads it back. */
  lemma WordRoundTrip(value: int)
    requires 0 <= value < 65536
    ensures ToBytes(value, 2) == Success([(value % 256) as byte, (value / 256) as byte])
    ensures DecodeWord(ToBytes(value, 2).value) == value
  {
    var bs := [(value % 256) as byte, (value / 256) as byte];
    ByteOfInt(value % 256);
    ByteOfInt(value / 256);
    LittleEndianPair(bs);
    ToBytesOfValue(bs);
  }

  /** `writeByte` and `writeCommand` send exactly one byte, and only for
      values 0 to 255. */
  lemma ByteEncoding(value: int)
    ensures ToBytes(value, 1).Success? <==> 0 <= value < 256
    ensures 0 <= value < 256 ==> ToBytes(value, 1) == Success([value as byte])
  {
    if 0 <= value < 256 {
      var bs := [value as byte];
      ByteOfInt(value);
      assert FromLittleEndian(bs[1..]) == 0;
      ToBytesOfValue(bs);
    }
  }

  // ---------------------------------------------------------------------
  // The wrapper object

  /** A bus object handed out by the runtime. */
  datatype Handle = Handle(id: nat)

  /** An attribute value: a bus reference, which may be `None`, or any other
      value stored through attribute assignment. */
  datatype Value = BusRef(bus: Option<Handle>) | Plain(n: int)

  /** The requests the wrapper makes of the bus object. */
  datatype Transfer =
    | ReadFromMem(address: int, register: int, count: nat)
    | WriteTo(address: int, data: seq<byte>)
    | WriteToMem(address: int, register: int, data: seq<byte>)

  /** The class `MicroPythonI2C` itself, which holds the class attribute
      `_i2cbus`, connected once when the class is created. */
  class I2cClass {
    var bus: Option<Handle>

    constructor(connection: Option<Handle>)
      ensures bus == connection
    {
      bus := connection;
    }

    /** `scan`: a class method that connects the class attribute when it is
        `None` and returns the addresses the bus reports, or nothing when
        there is still no bus. */
    method Scan(connection: Option<Handle>, devices: seq<int>) returns (found: seq<int>)
      modifies this
      ensures bus == (if old(bus).None? then connection else old(bus))
      ensures found == (if bus.None? then [] else devices)
    {
      if bus == None {
        bus := connection;
      }
      if bus == None {
        return [];
      }
      found := devices;
    }
  }

  class MicroPythonI2C {
    /** The class of this instance, shared by all instances. */
    const cls: I2cClass
    /** The instance's own attributes. */
    var attrs: map<string, Value>
    /** What the wrapper has asked of the bus, in order. */
    var traffic: seq<Transfer>

    /** `i2cbus` can never become an instance attribute. */
    ghost predicate Valid()
      reads this
    {
      "i2cbus" !in attrs
    }

    /** The base class's initialiser is not part of this model; it is taken
        to store no attributes. */
    constructor(cls: I2cClass)
      ensures this.cls == cls && attrs == map[] && traffic == [] && Valid()
    {
      this.cls := cls;
      attrs := map[];
      traffic := [];
    }

    /** `self._i2cbus`: the instance attribute when there is one, otherwise
        the class attribute. */
    function BusAttribute(): (v: Value)
      reads this, cls
      ensures "_i2cbus" in attrs ==> v == attrs["_i2cbus"]
      ensures "_i2cbus" !in attrs ==> v == BusRef(cls.bus)
    {
      if "_i2cbus" in attrs then attrs["_i2cbus"] else BusRef(cls.bus)
    }

    /** `__setattr__`: assigning `i2cbus` is silently ignored; any other name
        is stored on the instance. */
    method SetAttr(name: string, value: Value)
      requires Valid()
      modifies this`attrs
      ensures Valid()
      ensures attrs == if name == "i2cbus" then old(attrs) else old(attrs)[name := value]
    {
      if name != "i2cbus" {
        attrs := attrs[name := value];
      }
    }

    /** Reading `i2cbus`: connects when `_i2cbus` is `None`, storing the new
        handle (or `None` again) on the instance, never on the class. */
    method I2cBus(connection: Option<Handle>) returns (v: Value)
      requires Valid()
      modifies this`attrs
      ensures Valid() && v == BusAttribute()
      ensures old(BusAttribute()) == BusRef(None) ==>
        attrs == old(attrs)["_i2cbus" := BusRef(connection)] && v == BusRef(connection)
      ensures old(BusAttribute()) != BusRef(None) ==> attrs == old(attrs) && v == old(BusAttribute())
      ensures cls.bus == old(cls.bus)
    {
      if BusAttribute() == BusRef(None) {
        SetAttr("_i2cbus", BusRef(connection));
      }
      v := BusAttribute();
    }

    /** `__getattr__`, which Python calls only for a name that ordinary lookup
        does not find: `i2cbus` is the lazily connected bus, any other name
        raises `AttributeError`. */
    method GetAttr(name: string, connection: Option<Handle>) returns (r: Result<Value, Error>)
      requires Valid() && name !in attrs && name != "_i2cbus"
      modifies this`attrs
      ensures Valid()
      ensures name != "i2cbus" ==> r == Failure(AttributeError(name)) && attrs == old(attrs)
      ensures name == "i2cbus" ==> r == Success(BusAttribute())
      ensures name == "i2cbus" && old(BusAttribute()) == BusRef(None) ==>
        attrs == old(attrs)["_i2cbus" := BusRef(connection)]
      ensures name == "i2cbus" && old(BusAttribute()) != BusRef(None) ==> attrs == old(attrs)
    {
      if name == "i2cbus" {
        var v := I2cBus(connection);
        r := Success(v);
      } else {
        r := Failure(AttributeError(name));
      }
    }

    /** `readWord`: a two-byte read, little-endian. `reply` is what the bus
        returns. */
    method ReadWord(address: int, register: int, connection: Option<Handle>, reply: seq<byte>)
      returns (r: Result<int, Error>)
      requires Valid() && |reply| == 2
      modifies this`attrs, this`traffic
      ensures Valid()
      ensures old(BusAttribute()) == BusRef(None) ==> attrs == old(attrs)["_i2cbus" := BusRef(connection)]
      ensures old(BusAttribute()) != BusRef(None) ==> attrs == old(attrs)
      ensures r.Success? <==> BusAttribute().BusRef? && BusAttribute().bus.Some?
      ensures r.Success? ==>
        r.value == 256 * reply[1] as int + reply[0] as int && traffic == old(traffic) + [ReadFromMem(address, register, 2)]
      ensures r.Failure? ==> r == Failure(AttributeError("readfrom_mem")) && traffic == old(traffic)
    {
      var bus := I2cBus(connection);
      if !(bus.BusRef? && bus.bus.Some?) {
        return Failure(AttributeError("readfrom_mem"));
      }
      traffic := traffic + [ReadFromMem(address, register, 2)];
      r := Success(DecodeWord(reply));
    }

    /** The common shape of the three writes: the bus is looked up first, so
        a missing bus is reported before an overflow of the value. */
    method Write(busMethod: string, value: int, length: nat, connection: Option<Handle>,
                 transfer: seq<byte> -> Transfer)
      returns (r: Result<(), Error>)
      requires Valid()
      modifies this`attrs, this`traffic
      ensures Valid()
      ensures old(BusAttribute()) == BusRef(None) ==> attrs == old(attrs)["_i2cbus" := BusRef(connection)]
      ensures old(BusAttribute()) != BusRef(None) ==> attrs == old(attrs)
      ensures !(BusAttribute().BusRef? && BusAttribute().bus.Some?) ==>
        r == Failure(AttributeError(busMethod)) && traffic == old(traffic)
      ensures BusAttribute().BusRef? && BusAttribute().bus.Some? && ToBytes(value, length).Failure? ==>
        r == Failure(OverflowError) && traffic == old(traffic)
      ensures BusAttribute().BusRef? && BusAttribute().bus.Some? && ToBytes(value, length).Success? ==>
        r == Success(()) && traffic == old(traffic) + [transfer(ToBytes(value, length).value)]
    {
      var bus := I2cBus(connection);
      if !(bus.BusRef? && bus.bus.Some?) {
        return Failure(AttributeError(busMethod));
      }
      var data := ToBytes(value, length);
      if data.Failure? {
        return Failure(OverflowError);
      }
      traffic := traffic + [transfer(data.value)];
      r := Success(());
    }

    /** `writeCommand`: the command code as one byte, written without a
        register. */
    method WriteCommand(address: int, command: int, connection: Option<Handle>)
      returns (r: Result<(), Error>)
      requires Valid()
      modifies this`attrs, this`traffic
      ensures Valid()
      ensures old(BusAttribute()) == BusRef(None) ==> attrs == old(attrs)["_i2cbus" := BusRef(connection)]
      ensures old(BusAttribute()) != BusRef(None) ==> attrs == old(attrs)
      ensures !(BusAttribute().BusRef? && BusAttribute().bus.Some?) ==>
        r == Failure(AttributeError("writeto")) && traffic == old(traffic)
      ensures BusAttribute().BusRef? && BusAttribute().bus.Some? ==>
        if 0 <= command < 256 then r == Success(()) && traffic == old(traffic) + [WriteTo(address, [command as byte])]
        else r == Failure(OverflowError) && traffic == old(traffic)
    {
      ByteEncoding(command);
      r := Write("writeto", command, 1, connection, data => WriteTo(address, data));
    }

    /** `writeWord`: the value as two bytes, low byte first. */
    method WriteWord(address: int, register: int, value: int, connection: Option<Handle>)
      returns (r: Result<(), Error>)
      requires Valid()
      modifies this`attrs, this`traffic
      ensures Valid()
      ensures old(BusAttribute()) == BusRef(None) ==> attrs == old(attrs)["_i2cbus" := BusRef(connection)]
      ensures old(BusAttribute()) != BusRef(None) ==> attrs == old(attrs)
      ensures !(BusAttribute().BusRef? && BusAttribute().bus.Some?) ==>
        r == Failure(AttributeError("writeto_mem")) && traffic == old(traffic)
      ensures BusAttribute().BusRef? && BusAttribute().bus.Some? ==>
        if 0 <= value < 65536 then
          r == Success(()) &&
          traffic == old(traffic) + [WriteToMem(address, register, [(value % 256) as byte, (value / 256) as byte])]
        else r == Failure(OverflowError) && traffic == old(traffic)
    {
      if 0 <= value < 65536 {
        WordRoundTrip(value);
      }
      r := Write("writeto_mem", value, 2, connection, data => WriteToMem(address, register, data));
    }

    /** `writeByte`: the value as one byte. */
    method WriteByte(address: int, register: int, value: int, connection: Option<Handle>)
      returns (r: Result<(), Error>)
      requires Valid()
      modifies this`attrs, this`traffic
      ensures Valid()
      ensures old(BusAttribute()) == BusRef(None) ==> attrs == old(attrs)["_i2cbus" := BusRef(connection)]
      ensures old(BusAttribute()) != BusRef(None) ==> attrs == old(attrs)
      ensures !(BusAttribute().BusRef? && BusAttribute().bus.Some?) ==>
        r == Failure(AttributeError("writeto_mem")) && traffic == old(traffic)
      ensures BusAttribute().BusRef? && BusAttribute().bus.Some? ==>
        if 0 <= value < 256 then
          r == Success(()) && traffic == old(traffic) + [WriteToMem(address, register, [value as byte])]
        else r == Failure(OverflowError) && traffic == old(traffic)
    {
      ByteEncoding(value);
      r := Write("writeto_mem", value, 1, connection, data => WriteToMem(address, register, data));
    }
  }
}
