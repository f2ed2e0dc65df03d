/**
 The SI7021 driver: command encoding, bus transactions and the accessors
 built on them. Each method takes the bus state and returns the new one;
 the existence flag is passed in and out explicitly.
 */
module Si7021 {
  import opened Bytes
  import opened Conversions
  import opened TwoWire

  // ---------------------------------------------------------------------------
  // Command table
  // ---------------------------------------------------------------------------

  const RH_READ: seq<byte> := [0xE5]
  const TEMP_READ: seq<byte> := [0xE3]
  const POST_RH_TEMP_READ: seq<byte> := [0xE0]
  const RESET: seq<byte> := [0xFE]
  const USER1_READ: seq<byte> := [0xE7]
  const USER1_WRITE: seq<byte> := [0xE6]
  const SERIAL1_READ: seq<byte> := [0xFA, 0x0F]
  const SERIAL2_READ: seq<byte> := [0xFC, 0xC9]

  /** The response buffer every measurement accessor hands to `_command`. */
  const MEASUREMENT_BUFFER: nat := 2

  /** What the driver's behaviour depends on from the compiler target:
      `sizeof` a `byte *` and the width of `unsigned int`. On AVR boards both
      are 2 bytes; on 32-bit ARM boards both are 4. */
  datatype Platform = Platform(pointerBytes: nat, uintWidth: UIntWidth) {
    /** Every target has pointers of at least two bytes, so the two-byte
        measurement buffer is always filled. */
    predicate Valid() { pointerBytes >= MEASUREMENT_BUFFER }
  }

  // ---------------------------------------------------------------------------
  // _writeReg: the cumulative pointer
  // ---------------------------------------------------------------------------

  /** Tri(i) = 0 + 1 + ... + i: where `reg += i` has moved the pointer after
      iteration i of _writeReg's loop. */
  function Tri(i: nat): nat
  {
    if i == 0 then 0 else Tri(i - 1) + i
  }

  lemma {:induction false} TriClosedForm(i: nat)
    ensures 2 * Tri(i) == i * (i + 1)
  {
    if i > 0 {
      TriClosedForm(i - 1);
    }
  }

  /** The pointer stays on index i only for the first two iterations;
      from the third on it runs ahead. */
  lemma TriExceedsIndex(i: nat)
    requires i >= 2
    ensures Tri(i) > i
  {
  }

  lemma {:induction false} TriMonotone(i: nat, j: nat)
    requires i <= j
    ensures Tri(i) <= Tri(j)
  {
    if i < j {
      TriMonotone(i, j - 1);
    }
  }

  /** The cells _writeReg hands to the bus for `reglen` iterations. */
  function WriteRegCells(reg: seq<byte>, reglen: nat): (cells: seq<Cell>)
    ensures |cells| == reglen
    ensures forall i :: 0 <= i < reglen ==> cells[i] == Fetch(reg, Tri(i))
  {
    seq(reglen, i requires 0 <= i < reglen => Fetch(reg, Tri(i)))
  }

  /** _writeReg(reg, reglen): one transmission of `reglen` bytes, iteration i
      sending the byte `reg[Tri(i)]` because the pointer is advanced by the
      loop counter rather than by one. */
  method WriteReg(w: Wire, reg: seq<byte>, reglen: nat) returns (w': Wire, sent: seq<Cell>)
    ensures |sent| == reglen
    ensures forall i :: 0 <= i < reglen ==> sent[i] == Fetch(reg, Tri(i))
    ensures w'.trace == w.trace + [Transmission(sent)]
    ensures w'.pending == w.pending
  {
    var offset: nat := 0;
    sent := [];
    for i := 0 to reglen
      invariant |sent| == i
      invariant offset + i == Tri(i)
      invariant forall k :: 0 <= k < i ==> sent[k] == Fetch(reg, Tri(k))
    {
      offset := offset + i;
      sent := sent + [Fetch(reg, offset)];
    }
    w' := w.(trace := w.trace + [Transmission(sent)]);
  }

  /** Every byte _writeReg fetches lies inside an array of `len` bytes:
      the precondition the C code needs and does not check. */
  predicate WriteRegInBounds(len: nat, reglen: nat)
  {
    reglen == 0 || Tri(reglen - 1) < len
  }

  /** WriteRegInBounds is exactly the condition under which no cell sent is
      of unspecified value. */
  lemma InBoundsIffAllKnown(reg: seq<byte>, reglen: nat)
    ensures WriteRegInBounds(|reg|, reglen) <==>
            forall i :: 0 <= i < reglen ==> Fetch(reg, Tri(i)).Known?
  {
    if WriteRegInBounds(|reg|, reglen) {
      forall i | 0 <= i < reglen
        ensures Fetch(reg, Tri(i)).Known?
      {
        TriMonotone(i, reglen - 1);
      }
    } else {
      assert !Fetch(reg, Tri(reglen - 1)).Known?;
    }
  }

  /** Byte i of a `_writeReg` transmission is fetched from offset i, for
      every i below `reglen`, exactly when `reglen` is at most 2; from 3 on
      the offsets run ahead of the indices. Whether those offsets lie inside
      the array is `InBoundsIffAllKnown`'s concern. */
  lemma WriteRegOffsetsIff(reglen: nat)
    ensures (forall i :: 0 <= i < reglen ==> Tri(i) == i) <==> reglen <= 2
  {
    if reglen > 2 {
      TriExceedsIndex(2);
      assert Tri(2) != 2;
    }
  }

  /** Hence for `reglen` at most 2 within the array, the transmission is the
      array's prefix. */
  lemma ShortWriteRegSendsPrefix(reg: seq<byte>, reglen: nat)
    requires reglen <= 2 && reglen <= |reg|
    ensures WriteRegCells(reg, reglen) == KnownCells(reg[..reglen])
  {
  }

  /** And when a whole array of 3 or more bytes is written, the last fetch
      lands past its end. */
  lemma LongWriteRegOverruns(reg: seq<byte>)
    requires |reg| >= 3
    ensures WriteRegCells(reg, |reg|)[|reg| - 1] == Beyond(reg, Tri(|reg| - 1))
    ensures !WriteRegInBounds(|reg|, |reg|)
  {
  }

  // ---------------------------------------------------------------------------
  // _readReg and _command
  // ---------------------------------------------------------------------------

  /** _readReg(buf, reglen): request `reglen` bytes and copy them out in
      order. The busy wait for them has no timeout; the model requires
      instead that the sensor has that many bytes to send. */
  method ReadReg(w: Wire, reglen: nat) returns (w': Wire, data: seq<byte>)
    requires reglen <= |w.pending|
    ensures data == w.pending[..reglen]
    ensures w'.pending == w.pending[reglen..]
    ensures w'.trace == w.trace + [Request(reglen)]
  {
    data := [];
    var rest := w.pending;
    for i := 0 to reglen
      invariant |data| == i
      invariant data + rest == w.pending
    {
      data := data + [rest[0]];
      rest := rest[1..];
    }
    assert w.pending == data + rest;
    w' := Wire(w.trace + [Request(reglen)], rest);
  }

  /** _command(cmd, buf): both lengths are `sizeof` of a pointer parameter,
      so the driver writes and reads the platform's pointer width whatever
      the command's length and the buffer's size. */
  method Command(p: Platform, w: Wire, cmd: seq<byte>) returns (w': Wire, response: seq<byte>)
    requires p.pointerBytes <= |w.pending|
    ensures response == w.pending[..p.pointerBytes]
    ensures w'.pending == w.pending[p.pointerBytes..]
    ensures w'.trace == w.trace + [Transmission(WriteRegCells(cmd, p.pointerBytes)), Request(p.pointerBytes)]
  {
    var w1, sent := WriteReg(w, cmd, p.pointerBytes);
    assert sent == WriteRegCells(cmd, p.pointerBytes);
    w', response := ReadReg(w1, p.pointerBytes);
  }

  /** A one-byte command, as every measurement command is, is sent intact
      only where pointers are one byte wide; on every real target the second
      byte written is fetched from past the end of the command array. */
  lemma OneByteCommandOverruns(p: Platform, cmd: seq<byte>)
    requires |cmd| == 1
    ensures WriteRegInBounds(|cmd|, p.pointerBytes) <==> p.pointerBytes <= 1
    ensures p.Valid() ==> WriteRegCells(cmd, p.pointerBytes)[1] == Beyond(cmd, 1)
  {
  }

  /** The assembled reading of a measurement command: `_command` into a
      two-byte buffer, then `(long)buf[0] << 8 | buf[1]`. */
  method ReadRaw(p: Platform, w: Wire, cmd: seq<byte>) returns (w': Wire, raw: raw16)
    requires p.Valid() && p.pointerBytes <= |w.pending|
    ensures raw == RawFromBytes(w.pending[0], w.pending[1])
    ensures w'.pending == w.pending[p.pointerBytes..]
    ensures w'.trace == w.trace + [Transmission(WriteRegCells(cmd, p.pointerBytes)), Request(p.pointerBytes)]
  {
    var response;
    w', response := Command(p, w, cmd);
    raw := RawFromBytes(response[0], response[1]);
  }

  // ---------------------------------------------------------------------------
  // Measurement accessors
  // ---------------------------------------------------------------------------

  /** getCelsiusHundredths: one TEMP_READ transaction, converted. */
  method GetCelsiusHundredths(p: Platform, w: Wire) returns (w': Wire, celsius: int)
    requires p.Valid() && p.pointerBytes <= |w.pending|
    ensures celsius == CelsiusHundredths(RawFromBytes(w.pending[0], w.pending[1]))
    ensures w'.pending == w.pending[p.pointerBytes..]
    ensures w'.trace == w.trace + [Transmission(WriteRegCells(TEMP_READ, p.pointerBytes)), Request(p.pointerBytes)]
  {
    var raw;
    w', raw := ReadRaw(p, w, TEMP_READ);
    celsius := CelsiusHundredths(raw);
  }

  /** _getCelsiusPostHumidity: the same conversion applied to the
      temperature measured during the last humidity conversion. */
  method GetCelsiusPostHumidity(p: Platform, w: Wire) returns (w': Wire, celsius: int)
    requires p.Valid() && p.pointerBytes <= |w.pending|
    ensures celsius == CelsiusHundredths(RawFromBytes(w.pending[0], w.pending[1]))
    ensures w'.pending == w.pending[p.pointerBytes..]
    ensures w'.trace == w.trace + [Transmission(WriteRegCells(POST_RH_TEMP_READ, p.pointerBytes)), Request(p.pointerBytes)]
  {
    var raw;
    w', raw := ReadRaw(p, w, POST_RH_TEMP_READ);
    celsius := CelsiusHundredths(raw);
  }

  /** getHumidityPercent: one RH_READ transaction; the result wraps when
      the formula goes below zero. */
  method GetHumidityPercent(p: Platform, w: Wire) returns (w': Wire, humidity: nat)
    requires p.Valid() && p.pointerBytes <= |w.pending|
    ensures humidity == HumidityPercent(RawFromBytes(w.pending[0], w.pending[1]), p.uintWidth)
    ensures humidity <= 118 <==> RawFromBytes(w.pending[0], w.pending[1]) > 3145
    ensures w'.pending == w.pending[p.pointerBytes..]
    ensures w'.trace == w.trace + [Transmission(WriteRegCells(RH_READ, p.pointerBytes)), Request(p.pointerBytes)]
  {
    var raw;
    w', raw := ReadRaw(p, w, RH_READ);
    humidity := HumidityPercent(raw, p.uintWidth);
    UnsignedHumidityWrapsIff(raw, p.uintWidth);
  }

  /** getHumidityBasisPoints: one RH_READ transaction, scaled by 100. */
  method GetHumidityBasisPoints(p: Platform, w: Wire) returns (w': Wire, humidity: nat)
    requires p.Valid() && p.pointerBytes <= |w.pending|
    ensures humidity == HumidityBasisPoints(RawFromBytes(w.pending[0], w.pending[1]), p.uintWidth)
    ensures humidity <= 11899 <==> RawFromBytes(w.pending[0], w.pending[1]) > 3145
    ensures w'.pending == w.pending[p.pointerBytes..]
    ensures w'.trace == w.trace + [Transmission(WriteRegCells(RH_READ, p.pointerBytes)), Request(p.pointerBytes)]
  {
    var raw;
    w', raw := ReadRaw(p, w, RH_READ);
    humidity := HumidityBasisPoints(raw, p.uintWidth);
    UnsignedHumidityWrapsIff(raw, p.uintWidth);
  }

  /** The record getHumidityAndTemperature fills, without its Fahrenheit
      field. Its fields are `unsigned int`, as SI7021.h declares them. */
  datatype Env = Env(celsiusHundredths: nat, humidityBasisPoints: nat)

  /** The bus events of getHumidityAndTemperature. */
  function HumidityAndTemperatureEvents(p: Platform): seq<Event>
  {
    [Transmission(WriteRegCells(RH_READ, p.pointerBytes)), Request(p.pointerBytes),
     Transmission(WriteRegCells(POST_RH_TEMP_READ, p.pointerBytes)), Request(p.pointerBytes)]
  }

  /** Those events are exactly two transmissions, the humidity command
      first and the post-humidity temperature command second, and neither
      is the plain temperature command. */
  lemma HumidityAndTemperatureEventsShape(p: Platform)
    requires p.Valid()
    ensures CountTransmissions(HumidityAndTemperatureEvents(p)) == 2
    ensures IsCommand(HumidityAndTemperatureEvents(p)[0], RH_READ[0])
    ensures IsCommand(HumidityAndTemperatureEvents(p)[2], POST_RH_TEMP_READ[0])
    ensures forall e :: e in HumidityAndTemperatureEvents(p) ==> !IsCommand(e, TEMP_READ[0])
  {
    var events := HumidityAndTemperatureEvents(p);
    assert CountTransmissions(events[4..]) == 0;
    assert CountTransmissions(events[3..]) == 0;
    assert CountTransmissions(events[2..]) == 1;
    assert CountTransmissions(events[1..]) == 1;
  }

  /** getHumidityAndTemperature: a humidity transaction, then the
      post-humidity temperature transaction, so both values come from one
      measurement cycle. */
  method GetHumidityAndTemperature(p: Platform, w: Wire) returns (w': Wire, env: Env)
    requires p.Valid() && 2 * p.pointerBytes <= |w.pending|
    ensures env.humidityBasisPoints == HumidityBasisPoints(RawFromBytes(w.pending[0], w.pending[1]), p.uintWidth)
    ensures var c := CelsiusHundredths(RawFromBytes(w.pending[p.pointerBytes], w.pending[p.pointerBytes + 1]));
            env.celsiusHundredths == if c >= 0 then c else c + p.uintWidth.Modulus()
    ensures w'.pending == w.pending[2 * p.pointerBytes..]
    ensures w'.trace == w.trace + HumidityAndTemperatureEvents(p)
  {
    var n := p.pointerBytes;
    var w1, humidity := GetHumidityBasisPoints(p, w);
    assert w1.pending[0] == w.pending[n] && w1.pending[1] == w.pending[n + 1];
    assert w1.pending[n..] == w.pending[2 * n..];
    var celsius;
    w', celsius := GetCelsiusPostHumidity(p, w1);
    assert w'.trace == w.trace + HumidityAndTemperatureEvents(p);
    env := Env(ToUnsigned(celsius, p.uintWidth), humidity);
  }

  // ---------------------------------------------------------------------------
  // Serial number and device id
  // ---------------------------------------------------------------------------

  /** The eight serial-number bytes picked out of the two responses,
      discarding the CRC bytes: SNA_3..SNA_0 at the even positions of the
      first response, SNB_3, SNB_2 and SNB_1, SNB_0 around the CRC at
      position 2 of the second. */
  function SelectSerial(first: seq<byte>, second: seq<byte>): (serial: seq<byte>)
    requires |first| == 8 && |second| == 6
    ensures |serial| == 8
    ensures forall i :: 0 <= i < 4 ==> serial[i] == first[2 * i]
    ensures serial[4..] == second[..2] + second[3..5]
  {
    [first[0], first[2], first[4], first[6], second[0], second[1], second[3], second[4]]
  }

  /** The sensor's side: the two responses carrying a serial number, with a
      CRC byte after each SNA byte and after each SNB pair. */
  function SerialResponses(serial: seq<byte>, crc: seq<byte>): (r: (seq<byte>, seq<byte>))
    requires |serial| == 8 && |crc| == 6
    ensures |r.0| == 8 && |r.1| == 6
  {
    ([serial[0], crc[0], serial[1], crc[1], serial[2], crc[2], serial[3], crc[3]],
     [serial[4], serial[5], crc[4], serial[6], serial[7], crc[5]])
  }

  /** Decoding what the sensor sends gives the serial number back, whatever
      the CRC bytes are. */
  lemma SerialRoundTrip(serial: seq<byte>, crc: seq<byte>)
    requires |serial| == 8 && |crc| == 6
    ensures SelectSerial(SerialResponses(serial, crc).0, SerialResponses(serial, crc).1) == serial
  {
  }

  /** Every response pair is the encoding of the serial number it decodes
      to, for the CRC bytes found at the CRC positions. */
  lemma SerialResponsesComplete(first: seq<byte>, second: seq<byte>)
    requires |first| == 8 && |second| == 6
    ensures SerialResponses(SelectSerial(first, second),
                            [first[1], first[3], first[5], first[7], second[2], second[5]]) == (first, second)
  {
    var r := SerialResponses(SelectSerial(first, second),
                             [first[1], first[3], first[5], first[7], second[2], second[5]]);
    assert r.0 == first;
    assert r.1 == second;
  }

  /** getEightByteSerial(buf): two transactions with the two-byte serial
      commands (sent intact, since sizeof of a real two-byte array is 2),
      reading 8 and then 6 bytes. */
  method GetEightByteSerial(w: Wire) returns (w': Wire, serial: seq<byte>, status: int)
    requires 14 <= |w.pending|
    ensures serial == SelectSerial(w.pending[..8], w.pending[8..14])
    ensures status == 1
    ensures w'.pending == w.pending[14..]
    ensures w'.trace == w.trace + [Transmission([Known(0xFA), Known(0x0F)]), Request(8),
                                   Transmission([Known(0xFC), Known(0xC9)]), Request(6)]
  {
    var w1, sent1 := WriteReg(w, SERIAL1_READ, |SERIAL1_READ|);
    var w2, first := ReadReg(w1, 8);
    var w3, sent2 := WriteReg(w2, SERIAL2_READ, |SERIAL2_READ|);
    var second;
    w', second := ReadReg(w3, 6);
    assert w2.pending[..6] == w.pending[8..14];
    serial := SelectSerial(first, second);
    assert sent1 == [Known(0xFA), Known(0x0F)];
    assert sent2 == [Known(0xFC), Known(0xC9)];
    status := 1;
  }

  /** getDeviceId: byte 4 of the serial number, SNB_3, which the datasheet
      defines as the device identification. */
  method GetDeviceId(w: Wire) returns (w': Wire, id: int)
    requires 14 <= |w.pending|
    ensures id == w.pending[8]
    ensures 0 <= id < 0x100
    ensures forall serial, crc | |serial| == 8 && |crc| == 6 &&
              w.pending[..14] == SerialResponses(serial, crc).0 + SerialResponses(serial, crc).1
              :: id == serial[4]
    ensures w'.pending == w.pending[14..]
    ensures w'.trace == w.trace + [Transmission([Known(0xFA), Known(0x0F)]), Request(8),
                                   Transmission([Known(0xFC), Known(0xC9)]), Request(6)]
  {
    var serial, status;
    w', serial, status := GetEightByteSerial(w);
    id := serial[4];
    forall sn: seq<byte>, crc: seq<byte> | |sn| == 8 && |crc| == 6 &&
        w.pending[..14] == SerialResponses(sn, crc).0 + SerialResponses(sn, crc).1
      ensures id == sn[4]
    {
      assert w.pending[8] == w.pending[..14][8];
    }
  }

  // ---------------------------------------------------------------------------
  // Heater
  // ---------------------------------------------------------------------------

  /** The user register value setHeater writes. Both values agree in every
      bit but bit 2, the heater enable (HTRE) bit. */
  function HeaterByte(on: bool): (b: byte)
    ensures (b as bv8) & 0xFB == 0x3A
    ensures ((b as bv8) & 0x04 != 0) <==> on
  {
    if on then 0x3E else 0x3A
  }

  /** setHeater(on): one write of USER1_WRITE's opcode and the register
      value (a real two-byte array, so both bytes are sent intact) and no
      read of the register first: the other configuration bits are
      overwritten. */
  method SetHeater(w: Wire, on: bool) returns (w': Wire)
    ensures w'.trace == w.trace + [Transmission([Known(0xE6), Known(HeaterByte(on))])]
    ensures w'.pending == w.pending
  {
    var userwrite := [USER1_WRITE[0], HeaterByte(on)];
    var sent;
    w', sent := WriteReg(w, userwrite, |userwrite|);
    assert Tri(1) == 1;
    assert sent == [Known(0xE6), Known(HeaterByte(on))];
  }

  // ---------------------------------------------------------------------------
  // begin / sensorExists
  // ---------------------------------------------------------------------------

  /** The existence flag after one probe whose `endTransmission()` returned
      `status`: set on 0, otherwise left as it was. */
  function ProbeFlag(siExists: bool, status: int): bool
  {
    if status == 0 then true else siExists
  }

  /** begin(): start the bus, probe address 0x40 with an empty transmission
      and report the flag. */
  method Begin(siExists: bool, w: Wire, status: int) returns (siExists': bool, w': Wire, found: bool)
    ensures siExists' <==> siExists || status == 0
    ensures found == siExists'
    ensures w'.trace == w.trace + [BusBegin, Transmission([])]
    ensures w'.pending == w.pending
  {
    w' := w.(trace := w.trace + [BusBegin, Transmission([])]);
    siExists' := ProbeFlag(siExists, status);
    found := siExists';
  }

  /** `_si_exists` before any begin() call. */
  const INITIAL_FLAG: bool := false

  /** sensorExists(): the flag as it stands. */
  function SensorExists(siExists: bool): bool
  {
    siExists
  }

  /** The flag after a run of begin() calls with the given probe statuses. */
  function FlagAfterProbes(siExists: bool, statuses: seq<int>): bool
    decreases |statuses|
  {
    if |statuses| == 0 then siExists
    else FlagAfterProbes(ProbeFlag(siExists, statuses[0]), statuses[1..])
  }

  /** The flag is true after a run of probes exactly when it was true before
      or some probe was acknowledged: it is never reset. */
  lemma {:induction false} FlagAfterProbesIff(siExists: bool, statuses: seq<int>)
    ensures FlagAfterProbes(siExists, statuses) <==> siExists || 0 in statuses
    decreases |statuses|
  {
    if |statuses| > 0 {
      FlagAfterProbesIff(ProbeFlag(siExists, statuses[0]), statuses[1..]);
      assert statuses == [statuses[0]] + statuses[1..];
    }
  }

  /** From program start, sensorExists() reports true after a run of
      begin() calls exactly when one of their probes was acknowledged. */
  lemma SensorExistsAfterProbes(statuses: seq<int>)
    ensures SensorExists(FlagAfterProbes(INITIAL_FLAG, statuses)) <==> 0 in statuses
  {
    FlagAfterProbesIff(INITIAL_FLAG, statuses);
  }
}
