/** What `read_data` does once the pin is an input: the sampling loop that
    fills the forty-slot bit buffer, and the packing of its first thirty-two
    bits into humidity and temperature. */
module Decoding {
  import opened Options
  import opened Bytes
  import opened Pulses

  /** The four bytes the reading is built from, in transmission order. The
      fifth byte the sensor sends (a checksum) is never packed. */
  datatype Frame = Frame(humidityInt: u8, humidityDec: u8, temperatureInt: u8, temperatureDec: u8)

  /** A reading in tenths: `humidity_int + humidity_dec / 10` percent is
      `humidityTenths / 10` percent, and likewise for degrees Celsius. */
  datatype Reading = Reading(humidityTenths: nat, temperatureTenths: nat)

  /** The frame packed from the sampled bits: byte `j` from bits `8j .. 8j + 7`,
      most-significant bit first. */
  function FrameOf(bits: seq<u8>): Frame
    requires |bits| == DATA_LENGTH && IsBits(bits)
  {
    Frame(ByteOf(bits[0..8]), ByteOf(bits[8..16]), ByteOf(bits[16..24]), ByteOf(bits[24..32]))
  }

  /** The thirty-two bits that carry a frame, as the sensor sends them. */
  function FrameBits(f: Frame): (bits: seq<u8>)
    ensures |bits| == 32 && IsBits(bits)
  {
    ByteBits(f.humidityInt) + ByteBits(f.humidityDec) + ByteBits(f.temperatureInt) + ByteBits(f.temperatureDec)
  }

  function ReadingOf(f: Frame): (r: Reading)
    ensures r.humidityTenths as real / 10.0 == f.humidityInt as real + f.humidityDec as real / 10.0
    ensures r.temperatureTenths as real / 10.0 == f.temperatureInt as real + f.temperatureDec as real / 10.0
    ensures r.humidityTenths <= 2805 && r.temperatureTenths <= 2805
  {
    Reading(10 * f.humidityInt as nat + f.humidityDec as nat,
            10 * f.temperatureInt as nat + f.temperatureDec as nat)
  }

  /** What one attempt of `read_data` returns for the given events. */
  function ReadSpec(events: seq<Event>): Option<Reading>
  {
    match Sample(events)
    case None => None
    case Some(bits) => Some(ReadingOf(FrameOf(bits)))
  }

  lemma IsBitsSlice(bits: seq<u8>, i: nat, j: nat)
    requires IsBits(bits) && i <= j <= |bits|
    ensures IsBits(bits[i..j])
  {
    forall k | 0 <= k < j - i ensures bits[i..j][k] <= 1 {
      assert bits[i..j][k] == bits[i + k];
    }
  }

  /** Packing the bits of a frame, followed by any checksum byte, gives the frame back. */
  lemma FrameOfFrameBits(f: Frame, checksum: seq<u8>)
    requires |checksum| == 8 && IsBits(checksum)
    ensures IsBits(FrameBits(f) + checksum)
    ensures FrameOf(FrameBits(f) + checksum) == f
  {
    var bits := FrameBits(f) + checksum;
    assert bits[0..8] == ByteBits(f.humidityInt);
    assert bits[8..16] == ByteBits(f.humidityDec);
    assert bits[16..24] == ByteBits(f.temperatureInt);
    assert bits[24..32] == ByteBits(f.temperatureDec);
    ByteOfByteBits(f.humidityInt);
    ByteOfByteBits(f.humidityDec);
    ByteOfByteBits(f.temperatureInt);
    ByteOfByteBits(f.temperatureDec);
  }

  /** The frame holds exactly the first thirty-two sampled bits. */
  lemma FrameBitsOfFrame(bits: seq<u8>)
    requires |bits| == DATA_LENGTH && IsBits(bits)
    ensures FrameBits(FrameOf(bits)) == bits[..32]
  {
    IsBitsSlice(bits, 0, 8);
    IsBitsSlice(bits, 8, 16);
    IsBitsSlice(bits, 16, 24);
    IsBitsSlice(bits, 24, 32);
    ByteBitsOfByte(bits[0..8]);
    ByteBitsOfByte(bits[8..16]);
    ByteBitsOfByte(bits[16..24]);
    ByteBitsOfByte(bits[24..32]);
    assert bits[..32] == bits[0..8] + bits[8..16] + bits[16..24] + bits[24..32];
  }

  /** The frame depends on bits 0 to 31 and on nothing else: two bit strings
      give the same frame exactly when they agree there, whatever their
      checksum byte (bits 32 to 39). */
  lemma FrameIgnoresChecksum(a: seq<u8>, b: seq<u8>)
    requires |a| == DATA_LENGTH && IsBits(a)
    requires |b| == DATA_LENGTH && IsBits(b)
    ensures FrameOf(a) == FrameOf(b) <==> a[..32] == b[..32]
  {
    FrameBitsOfFrame(a);
    FrameBitsOfFrame(b);
    if a[..32] == b[..32] {
      assert a[0..8] == a[..32][0..8] == b[0..8];
      assert a[8..16] == a[..32][8..16] == b[8..16];
      assert a[16..24] == a[..32][16..24] == b[16..24];
      assert a[24..32] == a[..32][24..32] == b[24..32];
    }
  }

  /** The bytes 69, 0, 23, 5 read as 69.0 % humidity and 23.5 °C. */
  lemma ExampleFrame()
    ensures ReadingOf(Frame(69, 0, 23, 5)) == Reading(690, 235)
  {
  }

  /** A sensor that acknowledges and then sends the bytes 69, 0, 23, 5 and a
      checksum at its nominal pulse widths yields 69.0 % and 23.5 °C. */
  lemma ExampleTransmission(ackWidth: nat, checksum: seq<u8>)
    requires ackWidth < HIGH_TIMEOUT_MICROS && |checksum| == 8 && IsBits(checksum)
    ensures IsBits(FrameBits(Frame(69, 0, 23, 5)) + checksum)
    ensures ReadSpec([Pulse(ackWidth)] + EncodeBits(FrameBits(Frame(69, 0, 23, 5)) + checksum))
            == Some(Reading(690, 235))
  {
    var f := Frame(69, 0, 23, 5);
    FrameOfFrameBits(f, checksum);
    SampleEncodeBits(ackWidth, FrameBits(f) + checksum);
  }

  /** One attempt of `read_data` after the handshake: the sampling loop, with
      the acknowledgement flag and the bit counter, fills the forty-slot buffer
      in place; a timeout returns None at once; the first four bytes are then
      packed into the reading. Running out of events is treated as a failure. */
  method ReadPulseTrain(events: seq<Event>) returns (reading: Option<Reading>)
    ensures reading == ReadSpec(events)
  {
    var data := new u8[DATA_LENGTH];
    var hasReceivedResponse := false;
    var counter: u8 := 0;
    var i := 0;
    while counter < DATA_LENGTH as u8
      invariant i <= |events| && counter as nat <= DATA_LENGTH
      invariant IsBits(data[..counter])
      invariant Sample(events) == Run(events[i..], hasReceivedResponse, data[..counter])
      decreases |events| - i
    {
      if i == |events| {
        return None;
      }
      assert events[i..][1..] == events[i + 1..];
      match events[i]
      case LowTimeout =>
        return None;
      case HighTimeout =>
        return None;
      case Pulse(width) =>
        if width >= HIGH_TIMEOUT_MICROS {
          // the high-wait passed 100 ms before the line fell
          return None;
        }
        i := i + 1;
        if !hasReceivedResponse {
          hasReceivedResponse := true;
          continue;
        }
        if width < PULSE_LIMIT_MICROS {
          ghost var stored := data[..counter];
          if width > ZERO_MAX_MICROS {
            data[counter] := 1;
          } else {
            data[counter] := 0;
          }
          assert data[..counter + 1] == stored + [Classify(width)];
          counter := counter + 1;
        }
    }
    assert data[..counter] == data[..];
    var bits := data[..];
    IsBitsSlice(bits, 0, 8);
    IsBitsSlice(bits, 8, 16);
    IsBitsSlice(bits, 16, 24);
    IsBitsSlice(bits, 24, 32);
    var humidityInt := PackByte(data, 0);
    var humidityDec := PackByte(data, 8);
    var temperatureInt := PackByte(data, 16);
    var temperatureDec := PackByte(data, 24);
    reading := Some(ReadingOf(Frame(humidityInt, humidityDec, temperatureInt, temperatureDec)));
  }
}
