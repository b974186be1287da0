/** The register transactions on the half-duplex link to the stove controller.
    The link's state is an object: what the bridge has done on the link so far
    (a trace of written bytes, delays and direction-line changes), the bytes
    waiting to be read, the level of the ENABLE_RX direction line, and the
    two-slot receive scratch buffer `stoveRxData`. */
module Transactions {
  import opened Bytes
  import opened Frames

  /** One observable step of the bridge on the link. */
  datatype Event =
    | Write(b: Byte)            // one byte sent to the controller
    | Delay                     // a deliberate pause (its length is not modelled)
    | SetEnableRx(high: bool)   // the ENABLE_RX line driven high or low

  /** The bytes written in a trace, in order. */
  function Written(t: seq<Event>): seq<Byte>
  {
    if t == [] then [] else Written(t[..|t| - 1]) + WrittenBy(t[|t| - 1])
  }

  /** The byte an event writes, if any. */
  function WrittenBy(e: Event): (w: seq<Byte>)
    ensures |w| <= 1
  {
    if e.Write? then [e.b] else []
  }

  /** The addresses of the read requests in a trace: each time the line goes low
      right after a byte was written, that byte is the address being read. */
  function ReadAddresses(t: seq<Event>): seq<Byte>
  {
    if |t| < 2 then [] else ReadAddresses(t[..|t| - 1]) + RequestedAt(t[|t| - 2], t[|t| - 1])
  }

  /** The address requested by two adjacent events, if they are the end of a read request. */
  function RequestedAt(before: Event, e: Event): (a: seq<Byte>)
    ensures |a| <= 1
  {
    if e == SetEnableRx(false) && before.Write? then [before.b] else []
  }

  lemma WrittenSnoc(t: seq<Event>, e: Event)
    ensures Written(t + [e]) == Written(t) + WrittenBy(e)
  {
    assert (t + [e])[..|t|] == t;
  }

  lemma {:induction false} WrittenConcat(t: seq<Event>, u: seq<Event>)
    ensures Written(t + u) == Written(t) + Written(u)
    decreases |u|
  {
    if u == [] {
      assert t + u == t;
    } else {
      var u' := u[..|u| - 1];
      var e := u[|u| - 1];
      assert t + u == (t + u') + [e] && u == u' + [e];
      WrittenSnoc(t + u', e);
      WrittenSnoc(u', e);
      WrittenConcat(t, u');
    }
  }

  /** Read requests cannot straddle the seam between two traces when the second
      one does not start by driving the line low. */
  lemma {:induction false} ReadAddressesConcat(t: seq<Event>, u: seq<Event>)
    requires u == [] || u[0] != SetEnableRx(false)
    ensures ReadAddresses(t + u) == ReadAddresses(t) + ReadAddresses(u)
    decreases |u|
  {
    if u == [] {
      assert t + u == t;
    } else if |u| == 1 {
      assert ReadAddresses(u) == [];
      if t != [] {
        var tu := t + u;
        assert tu[..|tu| - 1] == t;
        assert tu[|tu| - 1] == u[0];
        assert RequestedAt(tu[|tu| - 2], tu[|tu| - 1]) == [];
      } else {
        assert t + u == u;
      }
    } else {
      var u' := u[..|u| - 1];
      var tu := t + u;
      assert u'[0] == u[0];
      assert tu[..|tu| - 1] == t + u';
      assert tu[|tu| - 1] == u[|u| - 1] && tu[|tu| - 2] == u[|u| - 2];
      ReadAddressesConcat(t, u');
      calc {
        ReadAddresses(tu);
        ReadAddresses(t + u') + RequestedAt(u[|u| - 2], u[|u| - 1]);
        ReadAddresses(t) + ReadAddresses(u') + RequestedAt(u[|u| - 2], u[|u| - 1]);
        ReadAddresses(t) + ReadAddresses(u);
      }
    }
  }

  /** What one read transaction does on the link: the opcode, a pause, the
      address, the line driven low, the settling pause, the line driven high. */
  function ReadTrace(address: Byte): (t: seq<Event>)
    ensures |t| == 6 && t[0] == Write(ReadOpcode) && t[|t| - 1] == SetEnableRx(true)
  {
    [Write(ReadOpcode), Delay, Write(address), SetEnableRx(false), Delay, SetEnableRx(true)]
  }

  /** What sending a frame does on the link: each byte followed by a pause. */
  function WriteTrace(f: seq<Byte>): (t: seq<Event>)
    ensures |t| == 2 * |f|
  {
    if f == [] then [] else [Write(f[0]), Delay] + WriteTrace(f[1..])
  }

  lemma {:induction false} WriteTraceSnoc(f: seq<Byte>, b: Byte)
    ensures WriteTrace(f + [b]) == WriteTrace(f) + [Write(b), Delay]
  {
    if f == [] {
      assert f + [b] == [b];
    } else {
      assert (f + [b])[1..] == f[1..] + [b];
      WriteTraceSnoc(f[1..], b);
    }
  }

  /** A read transaction requests exactly its one address. */
  lemma ReadTraceAddress(address: Byte)
    ensures ReadAddresses(ReadTrace(address)) == [address]
  {
    var t := ReadTrace(address);
    assert ReadAddresses(t[..2]) == [] by { assert t[..2][..1] == t[..1]; }
    assert t[..3][..2] == t[..2] && t[..4][..3] == t[..3] && t[..5][..4] == t[..4] && t[..5] == t[..|t| - 1];
    assert ReadAddresses(t[..3]) == ReadAddresses(t[..2]) + RequestedAt(t[1], t[2]) == [];
    assert ReadAddresses(t[..4]) == ReadAddresses(t[..3]) + RequestedAt(t[2], t[3]) == [address];
    assert ReadAddresses(t[..5]) == ReadAddresses(t[..4]) + RequestedAt(t[3], t[4]) == [address];
    assert ReadAddresses(t) == ReadAddresses(t[..5]) + RequestedAt(t[4], t[5]);
  }

  /** A read transaction writes exactly its read frame; the direction line goes
      low only once both frame bytes are out, and nothing is written after
      that. */
  lemma ReadTraceShape(address: Byte)
    ensures Written(ReadTrace(address)) == ReadFrame(address)
    ensures forall j :: 0 <= j < |ReadTrace(address)| && ReadTrace(address)[j] == SetEnableRx(false) ==>
              Written(ReadTrace(address)[..j]) == ReadFrame(address) && Written(ReadTrace(address)[j..]) == []
  {
    var t := ReadTrace(address);
    forall k | 0 <= k < |t| ensures t[..k + 1] == t[..k] + [t[k]] { }
    assert Written(t[..0]) == [] by { assert t[..0] == []; }
    WrittenSnoc(t[..0], t[0]);
    WrittenSnoc(t[..1], t[1]);
    WrittenSnoc(t[..2], t[2]);
    assert Written(t[..3]) == ReadFrame(address);
    WrittenSnoc(t[..3], t[3]);
    WrittenSnoc(t[..4], t[4]);
    WrittenSnoc(t[..5], t[5]);
    assert t[..6] == t;
    var rx := t[3..];
    assert t == t[..3] + rx;
    WrittenConcat(t[..3], rx);
    assert Written(rx) == [];
    forall j | 0 <= j < |t| && t[j] == SetEnableRx(false)
      ensures Written(t[..j]) == ReadFrame(address) && Written(t[j..]) == []
    {
      assert j == 3;
    }
  }

  /** Sending a frame writes exactly that frame. */
  lemma {:induction false} WrittenWriteTrace(f: seq<Byte>)
    ensures Written(WriteTrace(f)) == f
  {
    if f != [] {
      var head: seq<Event> := [Write(f[0]), Delay];
      assert Written(head) == [f[0]] by {
        WrittenSnoc([], head[0]);
        WrittenSnoc([head[0]], head[1]);
        assert [] + [head[0]] == [head[0]] && [head[0]] + [head[1]] == head;
      }
      assert Written(head + WriteTrace(f[1..])) == Written(head) + Written(WriteTrace(f[1..])) by {
        WrittenConcat(head, WriteTrace(f[1..]));
      }
      WrittenWriteTrace(f[1..]);
      assert f == [f[0]] + f[1..];
    }
  }

  /** Sending a frame never touches the direction line. */
  lemma {:induction false} WriteTraceKeepsLine(f: seq<Byte>)
    ensures SetEnableRx(false) !in WriteTrace(f) && SetEnableRx(true) !in WriteTrace(f)
  {
    if f != [] {
      WriteTraceKeepsLine(f[1..]);
    }
  }

  /** Sending a frame never makes a read request: the line is not driven low. */
  lemma {:induction false} WriteTraceRequestsNothing(f: seq<Byte>)
    ensures ReadAddresses(WriteTrace(f)) == []
  {
    if f != [] {
      var head: seq<Event> := [Write(f[0]), Delay];
      var rest := WriteTrace(f[1..]);
      assert ReadAddresses(head) == [] by { assert head[..1] == [head[0]]; }
      assert rest == [] || rest[0] == Write(f[1]);
      ReadAddressesConcat(head, rest);
      WriteTraceRequestsNothing(f[1..]);
    }
  }

  /** The link between the bridge and the stove controller. */
  class StoveLink {
    /** Everything the bridge has done on the link, oldest first. */
    var trace: seq<Event>
    /** The bytes that `available()` reports and `read()` returns, oldest first. */
    var rxQueue: seq<Byte>
    /** The level of the ENABLE_RX direction line (true is HIGH). */
    var enableRx: bool
    /** The receive scratch buffer `stoveRxData`. */
    const rxData: array<Byte>

    ghost predicate Valid()
      reads this
    {
      rxData.Length == 2
    }

    /** A link on which `pending` bytes are already waiting and the direction
        line is at `level`. */
    constructor (pending: seq<Byte>, level: bool)
      ensures Valid() && fresh(rxData)
      ensures trace == [] && rxQueue == pending && enableRx == level
    {
      trace := [];
      rxQueue := pending;
      enableRx := level;
      rxData := new Byte[2];
    }

    /** `StoveSerial.write(b)`. */
    method Write(b: Byte)
      modifies this`trace
      ensures trace == old(trace) + [Event.Write(b)]
    {
      trace := trace + [Event.Write(b)];
    }

    /** `delay(..)`. */
    method Pause()
      modifies this`trace
      ensures trace == old(trace) + [Delay]
    {
      trace := trace + [Delay];
    }

    /** `digitalWrite(ENABLE_RX, level)`. */
    method DriveEnableRx(high: bool)
      modifies this`trace, this`enableRx
      ensures enableRx == high
      ensures trace == old(trace) + [SetEnableRx(high)]
    {
      enableRx := high;
      trace := trace + [SetEnableRx(high)];
    }

    /** The controller's answer reaching the link: the bytes queue up behind
        whatever was already waiting. */
    method Deliver(bytes: seq<Byte>)
      modifies this`rxQueue
      ensures rxQueue == old(rxQueue) + bytes
    {
      rxQueue := rxQueue + bytes;
    }

    /** `StoveSerial.available()`, read as "some byte is waiting". */
    function Available(): (some: bool)
      reads this
      ensures some <==> rxQueue != []
    {
      |rxQueue| > 0
    }

    /** `StoveSerial.read()`: take the oldest waiting byte. */
    method Read() returns (b: Byte)
      requires rxQueue != []
      modifies this`rxQueue
      ensures b == old(rxQueue)[0] && rxQueue == old(rxQueue)[1..]
    {
      b := rxQueue[0];
      rxQueue := rxQueue[1..];
    }

    /** The read-register transaction `getDBG(address)`. The controller's answer
        `arrived` comes in during the settling pause after the line goes low; the
        drain then takes everything waiting. The result is what `getDBG`
        prints: the decoded parameter and value, or the byte count. */
    method ReadRegister(address: Byte, arrived: seq<Byte>) returns (reply: Reply)
      requires Valid()
      requires |rxQueue| + |arrived| <= 2
      modifies this, rxData
      ensures Valid()
      ensures trace == old(trace) + ReadTrace(address)
      ensures rxQueue == [] && enableRx
      ensures reply == DecodeReply(old(rxQueue) + arrived)
      ensures rxData[..] == Padded(old(rxQueue) + arrived)
    {
      Write(ReadOpcode);
      Pause();
      Write(address);
      DriveEnableRx(false);
      Pause();
      Deliver(arrived);
      ghost var captured := rxQueue;
      var rxCount := Receive();
      DriveEnableRx(true);
      if rxCount == 2 {
        var val := rxData[1];
        var checksum := rxData[0];
        var param := ToByte(checksum as int - val);
        reply := Decoded(param, val);
      } else {
        reply := Incomplete(rxCount);
      }
      assert rxData[..] == Padded(captured) && rxCount == |captured|;
    }

    /** The receive window of `getDBG`: clear the scratch buffer, then move every
        waiting byte into it, counting them in `rxCount`. */
    method Receive() returns (rxCount: Byte)
      requires Valid() && |rxQueue| <= 2
      modifies this`rxQueue, rxData
      ensures rxCount == |old(rxQueue)| && rxQueue == []
      ensures rxData[..] == Padded(old(rxQueue))
    {
      rxCount := 0;
      rxData[0] := 0;
      rxData[1] := 0;
      while Available()
        invariant rxCount <= |old(rxQueue)|
        invariant rxQueue == old(rxQueue)[rxCount..]
        invariant rxData[..] == Padded(old(rxQueue)[..rxCount])
        decreases |rxQueue|
      {
        var b := Read();
        rxData[rxCount] := b;
        rxCount := rxCount + 1;
      }
      assert old(rxQueue)[..rxCount] == old(rxQueue);
    }

    /** The write-register transaction of the 'X' command: build
        `writeReg[4] = {marker, address, value, checksum}` and send it one byte at
        a time, each followed by a pause. Nothing is read and the direction line
        is left alone. The result is the frame the 'X' command prints for audit. */
    method WriteRegister(selector: char, address: Byte, value: Byte) returns (frame: seq<Byte>)
      modifies this`trace
      ensures frame == WriteFrame(selector, address, value)
      ensures trace == old(trace) + WriteTrace(frame)
      ensures rxQueue == old(rxQueue) && enableRx == old(enableRx)
    {
      var fixed := if selector == 'R' then MarkerR else MarkerOther;
      var chksum := ToByte(fixed + address + value);
      assert fixed == Marker(selector) && chksum == Checksum(fixed, address, value);
      var writeReg := new Byte[][fixed, address, value, chksum];
      assert writeReg[..] == [fixed, address, value, chksum];
      for i := 0 to 4
        invariant writeReg[..] == [fixed, address, value, chksum]
        invariant trace == old(trace) + WriteTrace(writeReg[..i])
      {
        WriteTraceSnoc(writeReg[..i], writeReg[i]);
        assert writeReg[..i + 1] == writeReg[..i] + [writeReg[i]];
        Write(writeReg[i]);
        Pause();
      }
      frame := writeReg[..];
      assert writeReg[..4] == writeReg[..];
    }
  }

  /** The scratch buffer's contents after capturing `rx` (at most two bytes):
      the captured bytes, then the zeros the transaction cleared it to. */
  function Padded(rx: seq<Byte>): (buf: seq<Byte>)
    requires |rx| <= 2
    ensures |buf| == 2
  {
    if |rx| == 0 then [0, 0] else if |rx| == 1 then [rx[0], 0] else rx
  }
}
