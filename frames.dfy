/** The byte frames of the controller protocol, as values.
    A read request is `[0x20, address]`; the controller answers with two bytes
    `[param + value, value]` (mod 256); a write request is
    `[marker, address, value, checksum]` with an 8-bit wrap-around checksum. */
module Frames {
  import opened Bytes

  /** The leading byte of every read request. */
  const ReadOpcode: Byte := 0x20
  /** The marker byte a write uses when its selector is 'R'. */
  const MarkerR: Byte := 0x80
  /** The marker byte a write uses for every other selector. */
  const MarkerOther: Byte := 0xA0

  /** The two bytes a read transaction puts on the wire. */
  function ReadFrame(address: Byte): (f: seq<Byte>)
    ensures |f| == 2 && f[0] == ReadOpcode && f[1] == address
  {
    [ReadOpcode, address]
  }

  /** The marker of a write: 'R' selects 0x80, anything else 0xA0. */
  function Marker(selector: char): (m: Byte)
    ensures m == MarkerR <==> selector == 'R'
    ensures m == MarkerR || m == MarkerOther
  {
    if selector == 'R' then MarkerR else MarkerOther
  }

  /** 8-bit wrap-around sum of the three leading bytes of a write frame. */
  function Checksum(marker: Byte, address: Byte, value: Byte): Byte {
    ToByte(marker + address + value)
  }

  /** The checksum is congruent to the sum of the three bytes modulo 256. */
  lemma ChecksumSpec(marker: Byte, address: Byte, value: Byte)
    ensures (marker + address + value - Checksum(marker, address, value)) % 256 == 0
  {
    ToByteSpec(marker + address + value);
  }

  /** A write frame whose last byte is the checksum of the three before it. */
  predicate ChecksumValid(f: seq<Byte>) {
    |f| == 4 && (f[0] as int + f[1] + f[2] - f[3]) % 256 == 0
  }

  /** The four bytes a write transaction puts on the wire. */
  function WriteFrame(selector: char, address: Byte, value: Byte): (f: seq<Byte>)
    ensures |f| == 4 && f[0] == Marker(selector) && f[1] == address && f[2] == value
    ensures f[3] == Checksum(f[0], f[1], f[2])
  {
    var m := Marker(selector);
    [m, address, value, Checksum(m, address, value)]
  }

  /** Every write frame carries a valid checksum. */
  lemma WriteFrameChecksumValid(selector: char, address: Byte, value: Byte)
    ensures ChecksumValid(WriteFrame(selector, address, value))
  {
    ChecksumSpec(Marker(selector), address, value);
  }

  /** The checksum is the only byte that makes a frame valid. */
  lemma ChecksumUnique(marker: Byte, address: Byte, value: Byte, c: Byte)
    ensures ChecksumValid([marker, address, value, c]) <==> c == Checksum(marker, address, value)
  {
    var s := Checksum(marker, address, value);
    ChecksumSpec(marker, address, value);
    if ChecksumValid([marker, address, value, c]) {
      assert (c - s) % 256 == 0 by {
        assert c - s == (marker + address + value - s) - (marker + address + value - c);
      }
    }
  }

  /** A frame carries its own checksum after the fact: a valid four-byte frame is
      the write frame of its marker, address and value. */
  lemma ValidFrameIsWriteFrame(f: seq<Byte>, selector: char)
    requires ChecksumValid(f) && f[0] == Marker(selector)
    ensures f == WriteFrame(selector, f[1], f[2])
  {
    ChecksumUnique(f[0], f[1], f[2], f[3]);
    assert f == [f[0], f[1], f[2], f[3]];
  }

  /** Corrupting any single byte of the address or the value changes the checksum. */
  lemma ChecksumDetectsSingleByteChange(marker: Byte, address: Byte, value: Byte, address': Byte, value': Byte)
    requires (address == address') != (value == value')
    ensures Checksum(marker, address, value) != Checksum(marker, address', value')
  {
    ChecksumSpec(marker, address, value);
    ChecksumSpec(marker, address', value');
    if address != address' {
      assert -256 < address - address' < 256;
    } else {
      assert -256 < value - value' < 256;
    }
  }

  /** The checksum does not depend on whether the source's `char` is signed:
      summing the signed readings of the three bytes and truncating gives the same byte. */
  lemma ChecksumIgnoresCharSignedness(marker: Byte, address: Byte, value: Byte)
    ensures ToByte(SignedChar(marker) + SignedChar(address) + SignedChar(value)) == Checksum(marker, address, value)
  {
    var x := SignedChar(marker) + SignedChar(address) + SignedChar(value);
    var y := marker + address + value;
    assert (x - y) % 256 == 0 by {
      var dm, da, dv := SignedChar(marker) - marker, SignedChar(address) - address, SignedChar(value) - value;
      SignedCharSpec(marker);
      SignedCharSpec(address);
      SignedCharSpec(value);
      assert x - y == dm + da + dv;
    }
    ToByteCongruent(x, y);
  }

  /** The outcome of the receive window of one read transaction. */
  datatype Reply =
    | Decoded(param: Byte, value: Byte)   // exactly two bytes arrived
    | Incomplete(count: nat)              // any other number of bytes arrived

  /** Decode the captured bytes: the second is the value, the first minus the
      second (mod 256) is the parameter. */
  function DecodeReply(rx: seq<Byte>): (r: Reply)
    ensures r.Decoded? <==> |rx| == 2
    ensures r.Decoded? ==> r.value == rx[1]
    ensures r.Incomplete? ==> r.count == |rx|
  {
    if |rx| == 2 then Decoded(ToByte(rx[0] as int - rx[1]), rx[1]) else Incomplete(|rx|)
  }

  /** The decoded parameter plus the value is the first byte, modulo 256. */
  lemma DecodeReplyParam(rx: seq<Byte>)
    requires |rx| == 2
    ensures (DecodeReply(rx).param + rx[1] - rx[0]) % 256 == 0
  {
    ToByteSpec(rx[0] as int - rx[1]);
  }

  /** The two bytes the controller sends to report `param` and `value`:
      their 8-bit sum, then the value. */
  function ControllerReply(param: Byte, value: Byte): seq<Byte> {
    [ToByte(param + value), value]
  }

  /** Decoding recovers what the controller encoded. */
  lemma DecodeControllerReply(param: Byte, value: Byte)
    ensures DecodeReply(ControllerReply(param, value)) == Decoded(param, value)
  {
    var rx := ControllerReply(param, value);
    var r := DecodeReply(rx);
    DecodeReplyParam(rx);
    ToByteSpec(param + value);
    assert (r.param - param) % 256 == 0 by {
      assert r.param - param == (r.param + value - rx[0]) - (param + value - rx[0]);
    }
  }

  /** Every two-byte reply is the controller's encoding of what it decodes to. */
  lemma ControllerReplyOfDecode(rx: seq<Byte>)
    requires |rx| == 2
    ensures ControllerReply(DecodeReply(rx).param, DecodeReply(rx).value) == rx
  {
    var r := DecodeReply(rx);
    var e := ControllerReply(r.param, r.value);
    DecodeReplyParam(rx);
    ToByteSpec(r.param + r.value);
    assert (e[0] - rx[0]) % 256 == 0 by {
      assert e[0] - rx[0] == (r.param + r.value - rx[0]) - (r.param + r.value - e[0]);
    }
    assert e == [e[0], e[1]] && rx == [rx[0], rx[1]];
  }

  /** The worked examples: a write of 0xFF to 0xFF with the default selector
      wraps its checksum to 0x9E; a write of 0x01 to 0x10 with selector 'R' has
      checksum 0x91; the reply 0x05 0x03 decodes to parameter 0x02 and value 0x03;
      the reply 0x03 0x05 wraps to parameter 0xFE and value 0x05; a single byte
      is reported as a count of 1. */
  lemma Examples()
    ensures WriteFrame('E', 0xFF, 0xFF) == [0xA0, 0xFF, 0xFF, 0x9E]
    ensures WriteFrame('R', 0x10, 0x01) == [0x80, 0x10, 0x01, 0x91]
    ensures DecodeReply([0x05, 0x03]) == Decoded(0x02, 0x03)
    ensures DecodeReply([0x03, 0x05]) == Decoded(0xFE, 0x05)
    ensures DecodeReply([0x05]) == Incomplete(1)
  {
    assert WriteFrame('E', 0xFF, 0xFF) == [0xA0, 0xFF, 0xFF, ToByte(0xA0 + 0xFF + 0xFF)];
  }
}
