/** The sensor's 4-byte measurement reply: its status check and the unpacking
    of the two raw fractions (`cHS300x::getMeasurementResultsRaw`), together
    with the sensor-side packing of a reading, used as the decoder's inverse. */
module Response {
  import opened HS300xTypes
  import opened Bits

  /** Length of a measurement reply. */
  const ResponseLength: nat := 4
  /** Bits 7..6 of byte 0 carry the status field. */
  const StatusMask: nat := 0xC0
  /** Clears the two unused low bits of the temperature pair. */
  const TemperatureMask: nat := 0xFFFC

  /** The 2-bit status field of byte 0: 0 means fresh, valid data; 1, 2
      and 3 mean stale or otherwise unusable data. */
  function Status(b0: byte): (st: nat)
    ensures st < 4
  {
    b0 / 64
  }

  /** The 14-bit humidity field: bits 5..0 of byte 0, then all of byte 1. */
  function HumidityField(b: seq<byte>): (f: nat)
    requires |b| == ResponseLength
    ensures f < 0x4000
  {
    (b[0] as nat % 64) * 256 + b[1]
  }

  /** The 14-bit temperature field: all of byte 2, then bits 7..2 of byte 3. */
  function TemperatureField(b: seq<byte>): (f: nat)
    requires |b| == ResponseLength
    ensures f < 0x4000
  {
    b[2] as nat * 64 + b[3] / 4
  }

  /** A raw reading the driver can produce: each fraction is a 14-bit
      field shifted left by two, so its two low bits are clear. */
  predicate LowBitsClear(x: RawReading) {
    x.tfrac % 4 == 0 && x.rhfrac % 4 == 0
  }

  /** Validation and unpacking of a 4-byte reply, with the operators the C
      code applies. The shifts happen at `int` width; the humidity value is
      then truncated to 16 bits by its assignment to `std::uint16_t`. */
  function DecodeResponse(b: seq<byte>): (r: Option<RawReading>)
    requires |b| == ResponseLength
    ensures r.Some? <==> Status(b[0]) == 0
    ensures r.Some? ==> r.value.rhfrac == 4 * HumidityField(b)
    ensures r.Some? ==> r.value.tfrac == 4 * TemperatureField(b)
    ensures r.Some? ==> LowBitsClear(r.value)
  {
    StatusBits(b[0]);
    if And(b[0], StatusMask) != 0 then
      None
    else
      TemperatureBits(b[2], b[3]);
      HumidityBits(b[0], b[1]);
      var tfrac := And(Or(Shl(b[2], 8), b[3]), TemperatureMask);
      var rhfrac := Or(Shl(b[0], 10), Shl(b[1], 2)) % U16Limit;
      DivModUnique(tfrac, 4, TemperatureField(b), 0);
      DivModUnique(rhfrac, 4, HumidityField(b), 0);
      Some(RawReading(tfrac, rhfrac))
  }

  lemma Pow2Values()
    ensures Pow2(2) == 4 && Pow2(6) == 64 && Pow2(8) == 256
    ensures Pow2(10) == 1024 && Pow2(14) == 0x4000 && Pow2(16) == 0x1_0000
  {
  }

  /** The status mask is zero exactly when the status field is `00`. */
  lemma StatusBits(b0: byte)
    ensures And(b0, StatusMask) == 0 <==> Status(b0) == 0
  {
    Pow2Values();
    assert HighMask(6, 2) == StatusMask;
    AndHighMask(b0, 6, 2);
    assert And(b0, StatusMask) == b0 - b0 % 64;
  }

  /** The masked temperature pair is four times the 14-bit field. */
  lemma TemperatureBits(b2: byte, b3: byte)
    ensures And(Or(Shl(b2, 8), b3), TemperatureMask) == 4 * (b2 * 64 + b3 / 4)
  {
    Pow2Values();
    OrDisjoint(b2, b3, 8);
    var v := b2 * 256 + b3;
    assert Or(Shl(b2, 8), b3) == v;
    assert HighMask(2, 14) == TemperatureMask;
    AndHighMask(v, 2, 14);
    assert And(v, TemperatureMask) == v - v % 4;
    DivModUnique(v, 4, b2 * 64 + b3 / 4, b3 % 4);
  }

  /** With the status bits clear no humidity bit is lost to the 16-bit
      truncation, and the value is four times the 14-bit field. */
  lemma HumidityBits(b0: byte, b1: byte)
    requires b0 < 64
    ensures Or(Shl(b0, 10), Shl(b1, 2)) < U16Limit
    ensures Or(Shl(b0, 10), Shl(b1, 2)) == 4 * (b0 as nat * 256 + b1)
    ensures Or(Shl(b0, 10), Shl(b1, 2)) % U16Limit == 4 * (b0 as nat * 256 + b1)
  {
    Pow2Values();
    var lo := Shl(b1, 2);
    assert lo == 4 * b1 as nat < Pow2(10);
    OrDisjoint(b0, lo, 10);
    var v := Or(Shl(b0, 10), lo);
    assert v == 1024 * b0 as nat + lo;
    DivModUnique(v, U16Limit, 0, v);
  }

  /** How the sensor lays a reading out on the wire, with status `00` and
      the two "don't care" low bits of byte 3 sent as zero. */
  function EncodeResponse(x: RawReading): (b: seq<byte>)
    requires LowBitsClear(x)
    ensures |b| == ResponseLength
    ensures Status(b[0]) == 0
  {
    [x.rhfrac / 1024, (x.rhfrac / 4) % 256, x.tfrac / 256, x.tfrac % 256]
  }

  /** Every reading with clear low bits survives the trip over the wire. */
  lemma DecodeEncode(x: RawReading)
    requires LowBitsClear(x)
    ensures DecodeResponse(EncodeResponse(x)) == Some(x)
  {
    var b := EncodeResponse(x);
    var q := x.rhfrac / 4;
    DivModUnique(x.rhfrac, 1024, q / 256, 4 * (q % 256));
    assert 4 * HumidityField(b) == x.rhfrac;
    DivModUnique(x.tfrac, 256, b[2], b[3]);
    assert 4 * TemperatureField(b) == x.tfrac;
  }

  /** An accepted reply is the encoding of what it decodes to, up to the two
      low bits of byte 3, which the decoder ignores. */
  lemma EncodeDecode(b: seq<byte>)
    requires |b| == ResponseLength
    requires DecodeResponse(b).Some?
    ensures EncodeResponse(DecodeResponse(b).value) == b[..3] + [b[3] - b[3] % 4]
  {
    var x := DecodeResponse(b).value;
    DivModUnique(x.rhfrac, 1024, b[0], 4 * b[1] as nat);
    DivModUnique(x.rhfrac / 4, 256, b[0], b[1]);
    DivModUnique(x.tfrac, 256, b[2], b[3] - b[3] % 4);
  }

  /** A nonzero status field rejects the reply whatever bytes 1 to 3 hold. */
  lemma StatusAloneRejects(b: seq<byte>, c: seq<byte>)
    requires |b| == ResponseLength && |c| == ResponseLength
    requires b[0] == c[0] && Status(b[0]) != 0
    ensures DecodeResponse(b) == None && DecodeResponse(c) == None
  {
  }
}
