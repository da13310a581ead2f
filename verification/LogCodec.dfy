/** GRAMS_TOF_LogCodec: log records carried in the arguments of a packet. */
module LogCodec {
  import opened Prelude
  import opened Bytes
  import opened HostMemory
  import opened CommandCodec

  datatype LogData = LogData(run: word32, timestamp: word64, level: byte, component: Name, message: seq<byte>)

  const LOGGER_DATA_STREAM: word16 := 0x5401
  const MAX_LOG_LENGTH: nat := 10000

  /** The characters "... [TRUNCATED]". */
  const TRUNCATED: seq<byte> :=
    [0x2E, 0x2E, 0x2E, 0x20, 0x5B, 0x54, 0x52, 0x55, 0x4E, 0x43, 0x41, 0x54, 0x45, 0x44, 0x5D]

  /** The message that is sent. */
  function Clamped(m: seq<byte>): (r: seq<byte>)
    ensures |r| <= 10015
  {
    if |m| > MAX_LOG_LENGTH then m[..MAX_LOG_LENGTH] + TRUNCATED else m
  }

  function Header(d: LogData): (h: seq<word32>)
    ensures |h| == 9
  {
    [d.run, High(d.timestamp), Low(d.timestamp), d.level, |Clamped(d.message)|] + Pack(d.component)
  }

  function LogPacket(d: LogData): (p: Packet)
    ensures WellFormed(p) && p.code == LOGGER_DATA_STREAM && |p.argv| <= 2513
  {
    var argv := Header(d) + Pack(Clamped(d.message));
    Packet(LOGGER_DATA_STREAM, |argv|, argv)
  }

  /** encode: pushes the header words, then the message four bytes at a time. */
  method Encode(d: LogData) returns (p: Packet)
    ensures p == LogPacket(d)
  {
    hide WordOf, Pack;
    var safe := d.message;
    if |safe| > MAX_LOG_LENGTH {
      safe := safe[..MAX_LOG_LENGTH] + TRUNCATED;
    }
    var argv: seq<word32> := [d.run, High(d.timestamp), Low(d.timestamp), d.level, |safe|];
    argv := PushName(argv, d.component);
    var words := (|safe| + 3) / 4;
    for i := 0 to words
      invariant argv == Header(d) + Pack(safe)[..i]
    {
      PackAt(safe, i);
      argv := argv + [WordOf(Chunk(safe, i))];
    }
    p := Packet(LOGGER_DATA_STREAM, |argv| % 0x1_0000, argv);
  }

  /** decode. The word count is computed in 32 bits, so a length within 3 of 2^32 passes the
      check and the copy runs past the arguments. */
  function Decode(p: Packet): Decoded<LogData>
  {
    if |p.argv| < 9 then Rejected
    else
      var length: int := p.argv[4];
      if |p.argv| < 9 + (length + 3) % 0x1_0000_0000 / 4 then Rejected
      else if length > 4 * (|p.argv| - 9) then Overrun
      else
        Done(LogData(p.argv[0], Join(p.argv[1], p.argv[2]), p.argv[3] % 0x100,
                     CopyName(p.argv, 5)[15 := 0], Unpack(p.argv[9..])[..length]))
  }

  /** What arrives: a clamped message, and a component that ends in NUL. */
  function Received(d: LogData): LogData
  {
    d.(component := d.component[15 := 0], message := Clamped(d.message))
  }

  lemma DecodeOfLog(d: LogData)
    ensures Decode(LogPacket(d)) == Done(Received(d))
  {
    hide Unpack, Pack, Clamped;
    var m, argv := Clamped(d.message), LogPacket(d).argv;
    var fixed: seq<word32> := [d.run, High(d.timestamp), Low(d.timestamp), d.level, |m|];
    assert argv == fixed + Pack(d.component) + Pack(m);
    NameRoundTrip(fixed, d.component, Pack(m));
    assert argv[9..] == Pack(m);
    UnpackOfPack(m);
    JoinOfSplit(d.timestamp);
  }

  /** Messages of up to 10000 bytes are sent whole; of longer ones the first 10000 bytes, followed by
      "... [TRUNCATED]". */
  lemma SentMessage(m: seq<byte>)
    ensures |m| <= 10000 ==> Clamped(m) == m
    ensures |m| > 10000 ==> Clamped(m) == m[..10000] + [0x2E, 0x2E, 0x2E, 0x20, 0x5B, 0x54, 0x52, 0x55, 0x4E, 0x43, 0x41, 0x54, 0x45, 0x44, 0x5D]
  {
  }

  /** Every log record survives encode, serialize, parse and decode, whatever follows it on the wire:
      all fields come back, except that the last component byte is cleared and a message of more than
      10000 bytes is cut and marked. */
  lemma LogSurvives(d: LogData, rest: seq<byte>)
    ensures Parse(Serialize(LogPacket(d)) + rest) == Some(LogPacket(d)) && Decode(LogPacket(d)).Done?
    ensures var r := Decode(LogPacket(d)).value;
            && r.run == d.run && r.timestamp == d.timestamp && r.level == d.level && r.component == d.component[15 := 0]
            && (|d.message| <= 10000 ==> r.message == d.message)
            && (|d.message| > 10000 ==>
                  r.message == d.message[..10000] + [0x2E, 0x2E, 0x2E, 0x20, 0x5B, 0x54, 0x52, 0x55, 0x4E, 0x43, 0x41, 0x54, 0x45, 0x44, 0x5D])
  {
    hide Parse, Serialize, LogPacket, Decode, Clamped;
    ParseOfSerialize(LogPacket(d), rest);
    DecodeOfLog(d);
    SentMessage(d.message);
  }

  /** The words of a log packet. */
  lemma LogLayout(d: LogData)
    ensures var p := LogPacket(d);
            && p.code == 0x5401 && |p.argv| >= 9 && p.argv[0] == d.run && p.argv[3] == d.level
            && p.argv[1] == d.timestamp / 0x1_0000_0000 && p.argv[2] == d.timestamp % 0x1_0000_0000
            && p.argv[4] == (if |d.message| <= 10000 then |d.message| else 10015)
            && |p.argv| == 9 + (p.argv[4] + 3) / 4
  {
    hide Pack;
  }

  /** The 32-bit word count is wrong for exactly the three longest lengths, and then decode reads
      past the arguments; otherwise it accepts exactly the packets that hold the whole message. */
  lemma OverrunIff(p: Packet)
    requires |p.argv| < 0x4000_0000
    ensures Decode(p).Overrun? <==> |p.argv| >= 9 && p.argv[4] >= 0xFFFF_FFFD
    ensures Decode(p).Done? <==> |p.argv| >= 9 && p.argv[4] <= 4 * (|p.argv| - 9)
    ensures Decode(p).Done? ==>
              var r := Decode(p).value;
              && r.run == p.argv[0] && r.level == p.argv[3] % 0x100 && |r.message| == p.argv[4] && r.component[15] == 0
  {
    hide Unpack, CopyName, Join;
    if |p.argv| >= 9 {
      var length: int := p.argv[4];
      if length >= 0xFFFF_FFFD {
        assert (length + 3) % 0x1_0000_0000 == length + 3 - 0x1_0000_0000;
      } else {
        assert (length + 3) % 0x1_0000_0000 == length + 3;
      }
    }
  }
}
