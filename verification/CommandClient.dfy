/** GRAMS_TOF_CommandClient: the object that owns the receive buffer and the command queue.
    Its methods are the code's loops; their contracts tie them to the stream and queue models. */
module CommandClient {
  import opened Prelude
  import opened Bytes
  import opened CommandCodec
  import opened StreamReassembly
  import Q = CommandQueue

  function AckImages(ps: seq<Packet>): seq<seq<byte>>
  {
    seq(|ps|, i requires 0 <= i < |ps| => Serialize(Ack(ps[i])))
  }

  function Enqueues(ps: seq<Packet>): seq<Q.Event>
  {
    seq(|ps|, i requires 0 <= i < |ps| => Q.Enqueue(ps[i]))
  }

  lemma {:induction false} RunSnoc(s: Q.State, es: seq<Q.Event>, e: Q.Event)
    ensures Q.Run(s, es + [e]) == Q.Next(Q.Run(s, es), e)
    decreases |es|
  {
    if es == [] {
      assert es + [e] == [e];
      assert Q.Run(s, [e]) == Q.Run(Q.Next(s, e), []);
    } else {
      assert (es + [e])[1..] == es[1..] + [e];
      RunSnoc(Q.Next(s, es[0]), es[1..], e);
    }
  }

  /** What has been sent are, packet for packet, acknowledgements of what has been accepted: frames that
      carry the packet's code and its size in bytes as their one argument. */
  ghost predicate Acknowledged(sent: seq<seq<byte>>, accepted: seq<Packet>)
    requires |sent| == |accepted|
  {
    forall k :: 0 <= k < |sent| ==>
      WellFormed(accepted[k]) && Parse(sent[k]) == Some(Packet(accepted[k].code, 1, [14 + 4 * accepted[k].argc]))
  }

  class Client {
    var incoming: seq<byte>
    var queue: seq<Packet>
    var running: bool
    var sent: seq<seq<byte>>
    var shouldClose: bool
    ghost var accepted: seq<Packet>
    ghost var outcome: Outcome
    ghost var history: Q.State

    ghost predicate Valid()
      reads this
    {
      && queue == Q.Packets(history.queue) && running == history.running
      && (shouldClose <==> outcome != Open) && Q.Conserved(history)
      && |sent| == |accepted| && Acknowledged(sent, accepted)
    }

    ghost function Conn(): Connection
      reads this
    {
      Connection(incoming, accepted, outcome)
    }

    constructor ()
      ensures Valid() && Conn() == Fresh && history == Q.Initial && sent == []
    {
      incoming, queue, running, sent, shouldClose := [], [], false, [], false;
      accepted, outcome, history := [], Open, Q.Initial;
      assert Q.Tagged([]) == [];
    }

    /** A new connection starts with an empty buffer; the command queue survives. */
    method Reconnect()
      requires Valid()
      modifies this
      ensures Valid() && Conn() == Fresh && sent == []
      ensures queue == old(queue) && running == old(running) && history == old(history)
    {
      incoming, sent, shouldClose := [], [], false;
      accepted, outcome := [], Open;
    }

    /** Insert one accepted packet, under the queue mutex. */
    method Enqueue(p: Packet)
      requires Valid()
      modifies this`queue, this`history
      ensures Valid() && history == Q.Next(old(history), Q.Enqueue(p))
      ensures queue == if p.code == 0x5001 || p.code == 0x5002 then [p] + old(queue) else old(queue) + [p]
    {
      Q.EnqueueConserves(history, p);
      history := Q.Next(history, Q.Enqueue(p));
      if p.code == 0x5001 || p.code == 0x5002 {
        queue := [p] + queue;
      } else {
        queue := queue + [p];
      }
      assert queue == Q.Packets(history.queue);
    }

    /** One pass of the framing loop: stop if the packet is incomplete, otherwise take it off the
        buffer, parse it, acknowledge it and queue it. */
    method HandleFrame(ackOk: nat -> bool) returns (more: bool)
      requires Valid() && !shouldClose && |incoming| >= MIN_PACKET_SIZE
      modifies this
      ensures Valid()
      ensures match old(NextFrame(incoming)) {
          case Wait => !more && outcome == Open && incoming == old(incoming)
          case Bad(rest) => !more && outcome == Corrupt && incoming == rest
          case Good(p, rest) =>
            && incoming == rest && (if ackOk(|old(accepted)|) then more && outcome == Open else !more && outcome == AckFailed)
        }
      ensures more ==> var p := old(NextFrame(incoming)).packet;
                && accepted == old(accepted) + [p] && sent == old(sent) + [Serialize(Ack(p))]
                && history == Q.Next(old(history), Q.Enqueue(p))
      ensures !more ==> accepted == old(accepted) && sent == old(sent) && history == old(history)
    {
      hide Parse, Serialize, NextFrame, Image, Q.Conserved, Q.Next, Q.Packets;
      FrameCases(incoming);
      GoodFrames(incoming);
      var argc := Read16(incoming, 6);
      var expectedSize: nat := MIN_PACKET_SIZE + 4 * argc as int;
      if |incoming| < expectedSize { return false; }
      var data := incoming[..expectedSize];
      incoming := incoming[expectedSize..];
      var ok, pkt := ParsePacket(data);
      if !ok {
        shouldClose, outcome := true, Corrupt;
        return false;
      }
      var ack := SerializePacket(Ack(pkt), None);
      AckImage(pkt, ack);
      AckParses(pkt);
      if !ackOk(|sent|) {
        shouldClose, outcome := true, AckFailed;
        return false;
      }
      sent := sent + [ack];
      accepted := accepted + [pkt];
      Enqueue(pkt);
      return true;
    }

    /** One readable event with data: append, then frame packets until the buffer holds no
        complete one or the connection has to close. */
    method ProcessRead(chunk: seq<byte>, ackOk: nat -> bool)
      requires Valid() && !shouldClose
      modifies this
      ensures Valid() && Conn() == OnRead(old(Conn()), chunk, ackOk)
      ensures old(accepted) <= accepted
      ensures sent == old(sent) + AckImages(accepted[|old(accepted)|..])
      ensures history == Q.Run(old(history), Enqueues(accepted[|old(accepted)|..]))
    {
      hide NextFrame, Acknowledged, Serialize, Q.Conserved, Q.Next, Q.Run, Drain, AckImages, Enqueues, Q.Packets;
      incoming := incoming + chunk;
      ghost var whole := Drain(incoming, |accepted|, ackOk);
      ghost var taken: seq<Packet> := [];
      ghost var start := history;
      RunNothing(start);
      var more := true;
      while more && |incoming| >= MIN_PACKET_SIZE
        invariant Valid() && accepted == old(accepted) + taken
        invariant sent == old(sent) + AckImages(taken)
        invariant history == Q.Run(start, Enqueues(taken))
        invariant more ==> outcome == Open
        invariant outcome == Open ==> whole == Prepend(taken, Drain(incoming, |accepted|, ackOk))
        invariant outcome != Open ==> whole == Drained(taken, incoming, outcome)
        invariant !more && outcome == Open ==> NextFrame(incoming) == Wait
        decreases more, |incoming|
      {
        ghost var f := NextFrame(incoming);
        ghost var n := |accepted|;
        DrainStep(incoming, n, ackOk);
        more := HandleFrame(ackOk);
        if more {
          PrependSnoc(taken, f.packet, Drain(f.rest, n + 1, ackOk));
          TakenSnoc(start, taken, f.packet);
          taken := taken + [f.packet];
        }
      }
      DrainStep(incoming, |accepted|, ackOk);
      WaitingFrame(incoming);
      assert accepted[|old(accepted)|..] == taken;
      if shouldClose { incoming := []; }
    }

    /** The body of the worker's wait: leave if stopped and empty, otherwise take the front. */
    method TakeCommand() returns (pkt: Option<Packet>)
      requires Valid() && history.worker.Waiting? && (queue != [] || !running)
      modifies this`queue, this`history
      ensures Valid() && pkt.Some? == (old(queue) != [])
      ensures pkt.Some? ==> pkt.value == old(queue)[0] && queue == old(queue)[1..] && history == Q.Next(old(history), Q.Take)
      ensures pkt.None? ==> history == Q.Next(old(history), Q.Exit) && history.worker.Exited?
    {
      hide Q.Conserved;
      if !running && queue == [] {
        Q.StepConserves(history, Q.Exit);
        history := Q.Next(history, Q.Exit);
        pkt := None;
      } else {
        Q.TakeConserves(history);
        pkt := Some(queue[0]);
        queue := queue[1..];
        history := Q.Next(history, Q.Take);
        assert queue == Q.Packets(history.queue);
      }
    }
  }

  function Prepend(ps: seq<Packet>, d: Drained): Drained
  {
    d.(packets := ps + d.packets)
  }

  /** One unfolding of the drain. */
  lemma DrainStep(buf: seq<byte>, n: nat, ackOk: nat -> bool)
    ensures match NextFrame(buf)
            case Wait => Drain(buf, n, ackOk) == Drained([], buf, Open)
            case Bad(rest) => Drain(buf, n, ackOk) == Drained([], rest, Corrupt)
            case Good(p, rest) =>
              var d := Drain(rest, n + 1, ackOk);
              Drain(buf, n, ackOk) == if ackOk(n) then d.(packets := [p] + d.packets) else Drained([], rest, AckFailed)
  {
    hide NextFrame;
  }

  lemma PrependSnoc(ps: seq<Packet>, p: Packet, d: Drained)
    ensures Prepend(ps + [p], d) == Prepend(ps, d.(packets := [p] + d.packets))
  {
    assert (ps + [p]) + d.packets == ps + ([p] + d.packets);
  }

  lemma RunNothing(s: Q.State)
    ensures Q.Run(s, Enqueues([])) == s && AckImages([]) == []
  {
  }

  lemma TakenSnoc(s: Q.State, ps: seq<Packet>, p: Packet)
    ensures Q.Run(s, Enqueues(ps + [p])) == Q.Next(Q.Run(s, Enqueues(ps)), Q.Enqueue(p))
    ensures AckImages(ps + [p]) == AckImages(ps) + [Serialize(Ack(p))]
  {
    hide Q.Next, Serialize;
    assert Enqueues(ps + [p]) == Enqueues(ps) + [Q.Enqueue(p)];
    RunSnoc(s, Enqueues(ps), Q.Enqueue(p));
  }

  lemma FrameCases(buf: seq<byte>)
    requires |buf| >= MIN_PACKET_SIZE
    ensures |buf| < FrameSize(buf) ==> NextFrame(buf) == Wait
    ensures |buf| >= FrameSize(buf) ==>
              var n := FrameSize(buf);
              var p := Parse(buf[..n]);
              NextFrame(buf) == if p.None? then Bad(buf[n..]) else Good(p.value, buf[n..])
  {
    hide Parse;
  }

  /** The acknowledgement on the wire: the packet's own code, and one argument, its size. */
  lemma AckParses(p: Packet)
    ensures Parse(Serialize(Ack(p))) == Some(Packet(p.code, 1, [14 + 4 * p.argc]))
  {
    hide Parse, Serialize;
    ParseOfSerialize(Ack(p), []);
    assert Serialize(Ack(p)) + [] == Serialize(Ack(p));
  }

  lemma GoodFrames(buf: seq<byte>)
    ensures NextFrame(buf).Good? ==> WellFormed(NextFrame(buf).packet)
  {
    hide Serialize, Parse;
    if NextFrame(buf).Good? { GoodFrame(buf); }
  }

  lemma AckImage(p: Packet, ack: seq<byte>)
    requires ack == Image(Ack(p), None)
    ensures ack == Serialize(Ack(p))
  {
  }
}
