/**
 The two-wire bus as the driver sees it. The peripheral library itself is
 not modelled: a bus is the trace of what the driver asked of it, plus the
 bytes the sensor will answer with, consumed in order by reads.
 */
module TwoWire {
  import opened Bytes

  /** One byte handed to `Wire.write`. The driver fetches command bytes
      through a pointer into a fixed array; a fetch inside the array yields
      its byte, a fetch at or past its end yields whatever the linker placed
      there, which the model leaves unspecified and records only by the
      array it was fetched through and the offset from its start. */
  datatype Cell = Known(value: byte) | Beyond(array: seq<byte>, offset: nat)

  /** What the driver does on the bus.
      - BusBegin: `Wire.begin()`.
      - Transmission: `beginTransmission(0x40)`, one `write` per cell,
        `endTransmission()`; an empty one is an address probe.
      - Request: `requestFrom(0x40, count)`. */
  datatype Event = BusBegin | Transmission(data: seq<Cell>) | Request(count: nat)

  /** The bus state: events so far and the bytes the sensor has yet to send. */
  datatype Wire = Wire(trace: seq<Event>, pending: seq<byte>)

  /** The byte the driver fetches at `offset` from the start of `a`. */
  function Fetch(a: seq<byte>, offset: nat): Cell
  {
    if offset < |a| then Known(a[offset]) else Beyond(a, offset)
  }

  /** The cells that transmit an array's bytes in order. */
  function KnownCells(a: seq<byte>): (cells: seq<Cell>)
    ensures |cells| == |a|
    ensures forall i :: 0 <= i < |a| ==> cells[i] == Known(a[i])
  {
    if |a| == 0 then [] else [Known(a[0])] + KnownCells(a[1..])
  }

  /** A transmission whose first byte is the given opcode. */
  predicate IsCommand(e: Event, opcode: byte)
  {
    e.Transmission? && |e.data| > 0 && e.data[0] == Known(opcode)
  }

  /** The number of transmissions in a trace. */
  function CountTransmissions(t: seq<Event>): nat
  {
    if |t| == 0 then 0
    else (if t[0].Transmission? then 1 else 0) + CountTransmissions(t[1..])
  }
}
