/** The operator commands of the diagnostic bridge, selected by the first
    character of the payload: 'D' dumps registers 0x00..0xFE, 'R' reads the
    register named by two hex digits, 'X' writes a register. */
module Commands {
  import opened Bytes
  import opened Hex
  import opened Frames
  import opened Transactions

  /** The number of registers the dump visits: the counter runs while below 0xFF. */
  const SweepCount: nat := 0xFF

  /** What one step of the dump does on the link: the read transaction for
      `address`, then the pause between registers. */
  function SweepStep(address: Byte): (t: seq<Event>)
    ensures |t| > 0 && t[0] == Write(ReadOpcode)
  {
    ReadTrace(address) + [Delay]
  }

  /** What the dump does on the link for its first `n` registers, 0x00 upwards. */
  function SweepTrace(n: nat): seq<Event>
    requires n <= SweepCount
  {
    if n == 0 then [] else SweepTrace(n - 1) + SweepStep(n - 1)
  }

  /** The ascending addresses 0, 1, ..., n - 1. */
  function AddressesBelow(n: nat): (a: seq<Byte>)
    requires n <= 256
    ensures |a| == n
    ensures forall i :: 0 <= i < n ==> a[i] == i
  {
    if n == 0 then [] else AddressesBelow(n - 1) + [(n - 1) as Byte]
  }

  /** The first `n` steps of the dump request the addresses below `n`, in order. */
  lemma {:induction false} SweepTraceAddresses(n: nat)
    requires n <= SweepCount
    ensures ReadAddresses(SweepTrace(n)) == AddressesBelow(n)
  {
    if n > 0 {
      SweepTraceAddresses(n - 1);
      SweepStepAddress(n - 1);
      ReadAddressesConcat(SweepTrace(n - 1), SweepStep(n - 1));
    }
  }

  /** One step of the dump requests exactly its own address. */
  lemma SweepStepAddress(address: Byte)
    ensures ReadAddresses(SweepStep(address)) == [address]
  {
    ReadTraceAddress(address);
    ReadAddressesConcat(ReadTrace(address), [Delay]);
  }

  /** The dump requests every address from 0x00 to 0xFE exactly once, in
      ascending order, and never requests 0xFF. */
  lemma SweepRequestsEachAddressOnce()
    ensures |ReadAddresses(SweepTrace(SweepCount))| == 255
    ensures forall i :: 0 <= i < 255 ==> ReadAddresses(SweepTrace(SweepCount))[i] == i
    ensures forall i, j :: 0 <= i < j < 255 ==> ReadAddresses(SweepTrace(SweepCount))[i] < ReadAddresses(SweepTrace(SweepCount))[j]
    ensures forall a: Byte :: a in ReadAddresses(SweepTrace(SweepCount)) <==> a != 0xFF
  {
    SweepTraceAddresses(SweepCount);
    var r := ReadAddresses(SweepTrace(SweepCount));
    forall a: Byte | a != 0xFF ensures a in r {
      assert r[a] == a;
    }
  }

  /** The bytes that are waiting when the i-th read of a series drains the link:
      what was already queued before the first read, then each read's answer. */
  function Arrival(stale: seq<Byte>, answers: seq<seq<Byte>>, i: nat): (rx: seq<Byte>)
    requires i < |answers|
    ensures i > 0 ==> rx == answers[i]
  {
    if i == 0 then stale + answers[0] else answers[i]
  }

  /** Every read of the series sees at most the two bytes the buffer holds. */
  predicate AnswersFit(stale: seq<Byte>, answers: seq<seq<Byte>>) {
    && (forall i :: 0 <= i < |answers| ==> |answers[i]| <= 2)
    && (|answers| > 0 ==> |stale| + |answers[0]| <= 2)
  }

  /** The 'D' command: read registers 0x00 through 0xFE with a pause after each.
      `answers[a]` is what the controller sends back for address a. */
  method Sweep(link: StoveLink, answers: seq<seq<Byte>>) returns (replies: seq<Reply>)
    requires link.Valid()
    requires |answers| == SweepCount && AnswersFit(link.rxQueue, answers)
    modifies link, link.rxData
    ensures link.Valid()
    ensures link.trace == old(link.trace) + SweepTrace(SweepCount)
    ensures link.rxQueue == [] && link.enableRx
    ensures |replies| == SweepCount
    ensures forall i :: 0 <= i < SweepCount ==> replies[i] == DecodeReply(Arrival(old(link.rxQueue), answers, i))
    ensures link.rxData[..] == Padded(answers[SweepCount - 1])
  {
    ghost var stale := link.rxQueue;
    replies := [];
    var t: Byte := 0;
    while t < 0xFF
      invariant link.Valid()
      invariant |replies| == t
      invariant link.rxQueue == if t == 0 then stale else []
      invariant t > 0 ==> link.enableRx && link.rxData[..] == Padded(Arrival(stale, answers, t - 1))
      invariant forall i :: 0 <= i < t ==> replies[i] == DecodeReply(Arrival(stale, answers, i))
      invariant link.trace == old(link.trace) + SweepTrace(t)
    {
      assert link.rxQueue + answers[t] == Arrival(stale, answers, t) by {
        if t > 0 { assert link.rxQueue + answers[t] == answers[t]; }
      }
      var reply := SweepRead(link, t, answers[t]);
      replies := replies + [reply];
      assert SweepTrace(t + 1) == SweepTrace(t) + SweepStep(t);
      t := t + 1;
    }
  }

  /** One step of the dump: the read transaction for `address`, then the pause
      between registers. */
  method SweepRead(link: StoveLink, address: Byte, answer: seq<Byte>) returns (reply: Reply)
    requires link.Valid() && |link.rxQueue| + |answer| <= 2
    modifies link, link.rxData
    ensures link.Valid()
    ensures link.trace == old(link.trace) + SweepStep(address)
    ensures link.rxQueue == [] && link.enableRx
    ensures reply == DecodeReply(old(link.rxQueue) + answer)
    ensures link.rxData[..] == Padded(old(link.rxQueue) + answer)
  {
    reply := link.ReadRegister(address, answer);
    link.Pause();
  }

  /** The outcome of one command: what the 'D', 'R' or 'X' branch prints for it. */
  datatype Outcome =
    | Dumped(replies: seq<Reply>)          // one reply per register 0x00..0xFE
    | ReadOne(address: Byte, reply: Reply)
    | Wrote(frame: seq<Byte>)              // the frame that was sent
    | Ignored                              // no command starts with this character

  /** The payload has the fields its command reads: two hex digits after 'R';
      a selector and two two-digit hex fields after 'X'. */
  predicate PayloadWellFormed(payload: seq<char>) {
    && |payload| >= 1
    && (payload[0] == 'R' ==> |payload| >= 3 && IsHexDigit(payload[1]) && IsHexDigit(payload[2]))
    && (payload[0] == 'X' ==> |payload| >= 6 && IsHexDigit(payload[2]) && IsHexDigit(payload[3])
                                                && IsHexDigit(payload[4]) && IsHexDigit(payload[5]))
  }

  /** How many read transactions a command performs. */
  function ReadsNeeded(command: char): nat
  {
    if command == 'D' then SweepCount else if command == 'R' then 1 else 0
  }

  /** The 'R' command: read the register whose address the hex field `hl` names.
      `answer` is what the controller sends back. */
  method ReadCommand(link: StoveLink, h: char, l: char, answer: seq<Byte>) returns (outcome: Outcome)
    requires link.Valid() && IsHexDigit(h) && IsHexDigit(l)
    requires |link.rxQueue| + |answer| <= 2
    modifies link, link.rxData
    ensures link.Valid()
    ensures outcome == ReadOne(ParseHexByte(h, l), DecodeReply(old(link.rxQueue) + answer))
    ensures link.trace == old(link.trace) + ReadTrace(ParseHexByte(h, l))
    ensures link.rxQueue == [] && link.enableRx
    ensures link.rxData[..] == Padded(old(link.rxQueue) + answer)
  {
    var num := ToByte(ParseHexByte(h, l));
    ToByteSpec(ParseHexByte(h, l));
    var reply := link.ReadRegister(num, answer);
    outcome := ReadOne(num, reply);
  }

  /** The 'X' command: `selector` picks the marker, the hex fields `ah al` and
      `vh vl` give the address and the value; the frame is sent and reported. */
  method WriteCommand(link: StoveLink, selector: char, ah: char, al: char, vh: char, vl: char) returns (outcome: Outcome)
    requires IsHexDigit(ah) && IsHexDigit(al) && IsHexDigit(vh) && IsHexDigit(vl)
    modifies link`trace
    ensures outcome == Wrote(WriteFrame(selector, ParseHexByte(ah, al), ParseHexByte(vh, vl)))
    ensures link.trace == old(link.trace) + WriteTrace(outcome.frame)
    ensures link.rxQueue == old(link.rxQueue) && link.enableRx == old(link.enableRx)
  {
    var num := ToByte(ParseHexByte(ah, al));
    var test := ToByte(ParseHexByte(vh, vl));
    ToByteSpec(ParseHexByte(ah, al));
    ToByteSpec(ParseHexByte(vh, vl));
    var frame := link.WriteRegister(selector, num, test);
    outcome := Wrote(frame);
  }

  /** Carry out the command in `payload`; `answers` are the controller's replies
      to the reads the command makes. */
  method Dispatch(link: StoveLink, payload: seq<char>, answers: seq<seq<Byte>>) returns (outcome: Outcome)
    requires link.Valid() && PayloadWellFormed(payload)
    requires |answers| == ReadsNeeded(payload[0]) && AnswersFit(link.rxQueue, answers)
    modifies link, link.rxData
    ensures link.Valid()
    ensures payload[0] == 'D' ==>
              && outcome.Dumped? && |outcome.replies| == SweepCount
              && (forall i :: 0 <= i < SweepCount ==> outcome.replies[i] == DecodeReply(Arrival(old(link.rxQueue), answers, i)))
              && link.trace == old(link.trace) + SweepTrace(SweepCount)
              && link.rxQueue == [] && link.enableRx
              && link.rxData[..] == Padded(answers[SweepCount - 1])
    ensures payload[0] == 'R' ==>
              var address := ParseHexByte(payload[1], payload[2]);
              && outcome == ReadOne(address, DecodeReply(old(link.rxQueue) + answers[0]))
              && link.trace == old(link.trace) + ReadTrace(address)
              && link.rxQueue == [] && link.enableRx
              && link.rxData[..] == Padded(old(link.rxQueue) + answers[0])
    ensures payload[0] == 'X' ==>
              var frame := WriteFrame(payload[1], ParseHexByte(payload[2], payload[3]), ParseHexByte(payload[4], payload[5]));
              && outcome == Wrote(frame)
              && link.trace == old(link.trace) + WriteTrace(frame)
              && link.rxQueue == old(link.rxQueue) && link.enableRx == old(link.enableRx)
              && link.rxData[..] == old(link.rxData[..])
    ensures payload[0] !in {'D', 'R', 'X'} ==>
              && outcome == Ignored
              && link.trace == old(link.trace) && link.rxQueue == old(link.rxQueue)
              && link.enableRx == old(link.enableRx) && link.rxData[..] == old(link.rxData[..])
    ensures |old(link.trace)| <= |link.trace|
    ensures |ReadAddresses(link.trace[|old(link.trace)|..])| == ReadsNeeded(payload[0])
  {
    ghost var before := link.trace;
    if payload[0] == 'D' {
      var replies := Sweep(link, answers);
      outcome := Dumped(replies);
      SweepRequestsEachAddressOnce();
      assert link.trace[|before|..] == SweepTrace(SweepCount);
    } else if payload[0] == 'R' {
      outcome := ReadCommand(link, payload[1], payload[2], answers[0]);
      ReadTraceAddress(outcome.address);
      assert link.trace[|before|..] == ReadTrace(outcome.address);
    } else if payload[0] == 'X' {
      outcome := WriteCommand(link, payload[1], payload[2], payload[3], payload[4], payload[5]);
      WriteTraceRequestsNothing(outcome.frame);
      assert link.trace[|before|..] == WriteTrace(outcome.frame);
    } else {
      outcome := Ignored;
      assert link.trace[|before|..] == [];
    }
  }
}
