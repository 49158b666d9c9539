/** A client response streamed as it arrives, against the same response buffered whole. */
module Download {
  import opened Bytes
  import opened Wrappers

  /** What the application is given: a piece of the body, or the end of the response. */
  datatype Delivery = Body(data: bytes) | Done

  /** The application: has it aborted the connection, once these have been delivered? */
  type Handler = seq<Delivery> -> bool

  datatype Stream = Stream(expected: nat, received: nat, recv: bytes, closing: bool, done: bool, log: seq<Delivery>)

  datatype Event = Packet(data: bytes) | Abort

  function Take(s: Stream, h: Handler): Stream
    requires s.received < s.expected
  {
    var n := Min(|s.recv|, s.expected - s.received);
    var log := s.log + [Body(s.recv[..n])];
    s.(received := s.received + n, log := log, closing := s.closing || h(log), recv := s.recv[n..])
  }

  function Finish(s: Stream): Stream {
    if s.received >= s.expected && !s.done then s.(done := true, recv := [], log := s.log + [Done]) else s
  }

  function Step(s: Stream, h: Handler, e: Event): Stream {
    match e
    case Packet(p) =>
      var t := s.(recv := s.recv + p);
      Finish(if t.recv != [] && t.received < t.expected && !t.closing then Take(t, h) else t)
    case Abort => s.(closing := true)
  }

  function Run(expected: nat, h: Handler, es: seq<Event>): Stream {
    if es == [] then Stream(expected, 0, [], false, false, [])
    else Step(Run(expected, h, es[..|es| - 1]), h, es[|es| - 1])
  }

  function Arrived(es: seq<Event>): bytes {
    if es == [] then [] else
      Arrived(es[..|es| - 1]) + if es[|es| - 1].Packet? then es[|es| - 1].data else []
  }

  function Payload(log: seq<Delivery>): bytes {
    if log == [] then [] else
      Payload(log[..|log| - 1]) + if log[|log| - 1].Body? then log[|log| - 1].data else []
  }

  predicate OnlyBodies(log: seq<Delivery>) {
    forall i | 0 <= i < |log| :: log[i].Body? && log[i].data != []
  }

  /** Pieces of body, and then at most one end. */
  predicate Shaped(log: seq<Delivery>, done: bool) {
    if done then log != [] && log[|log| - 1] == Done && OnlyBodies(log[..|log| - 1]) else OnlyBodies(log)
  }

  /** Without streaming the application gets the whole body at once, and then the end. */
  function Buffered(body: bytes): seq<Delivery> {
    [Body(body), Done]
  }

  ghost predicate Sound(s: Stream, arrived: bytes) {
    && s.received == |Payload(s.log)| <= s.expected
    && Shaped(s.log, s.done)
    && (s.done <==> s.received == s.expected)
    && (if s.done then s.expected <= |arrived| && Payload(s.log) == arrived[..s.expected]
        else Payload(s.log) + s.recv == arrived && (s.recv != [] ==> s.closing))
  }

  lemma Snoc(log: seq<Delivery>, d: Delivery)
    ensures (log + [d])[..|log|] == log
    ensures Payload(log + [d]) == Payload(log) + if d.Body? then d.data else []
  {
    assert (log + [d])[..|log|] == log;
  }

  lemma TakeIsSound(s: Stream, h: Handler, arrived: bytes)
    requires s.received == |Payload(s.log)| < s.expected && !s.done && OnlyBodies(s.log)
    requires Payload(s.log) + s.recv == arrived && s.recv != []
    ensures
      var t := Take(s, h);
      && t.received == |Payload(t.log)| <= t.expected == s.expected && !t.done && OnlyBodies(t.log)
      && Payload(t.log) + t.recv == arrived && (t.recv != [] ==> t.received == t.expected)
  {
    var n := Min(|s.recv|, s.expected - s.received);
    Snoc(s.log, Body(s.recv[..n]));
    assert s.recv == s.recv[..n] + s.recv[n..];
  }

  lemma FinishIsSound(s: Stream, arrived: bytes)
    requires s.expected > 0 && s.received == |Payload(s.log)| <= s.expected && !s.done && OnlyBodies(s.log)
    requires Payload(s.log) + s.recv == arrived
    requires s.recv != [] ==> s.closing || s.received == s.expected
    ensures Sound(Finish(s), arrived)
  {
    Snoc(s.log, Done);
    if s.received == s.expected {
      assert Payload(s.log) == (Payload(s.log) + s.recv)[..s.expected];
      assert Payload(s.log) + [] == Payload(s.log);
    }
  }

  lemma StepIsSound(s: Stream, h: Handler, arrived: bytes, e: Event)
    requires s.expected > 0 && Sound(s, arrived)
    ensures Sound(Step(s, h, e), arrived + if e.Packet? then e.data else [])
  {
    if e.Packet? {
      if s.done {
        assert (arrived + e.data)[..s.expected] == arrived[..s.expected];
      } else {
        var t := s.(recv := s.recv + e.data);
        assert Payload(t.log) + t.recv == arrived + e.data;
        if t.recv != [] && !t.closing {
          TakeIsSound(t, h, arrived + e.data);
          FinishIsSound(Take(t, h), arrived + e.data);
        } else {
          FinishIsSound(t, arrived + e.data);
        }
      }
    } else {
      assert arrived + [] == arrived;
    }
  }

  lemma {:induction false} EveryRunIsSound(expected: nat, h: Handler, es: seq<Event>)
    requires expected > 0
    ensures Sound(Run(expected, h, es), Arrived(es)) && Run(expected, h, es).expected == expected
  {
    if es != [] {
      EveryRunIsSound(expected, h, es[..|es| - 1]);
      StepIsSound(Run(expected, h, es[..|es| - 1]), h, Arrived(es[..|es| - 1]), es[|es| - 1]);
    }
  }

  /** Streaming refines buffering: however the bytes are cut into packets, an application that
      never aborts has been given exactly the bytes of the body that have arrived, and once all
      have, the same body and the same single end as if it had been buffered. */
  lemma StreamingRefinesBuffering(expected: nat, h: Handler, es: seq<Event>)
    requires expected > 0 && !Run(expected, h, es).closing
    ensures
      var s, arrived := Run(expected, h, es), Arrived(es);
      && Payload(s.log) == arrived[..Min(expected, |arrived|)]
      && (s.done <==> |arrived| >= expected)
      && (s.done ==> Payload(s.log) == Payload(Buffered(arrived[..expected])) && s.log[|s.log| - 1] == Done
                     && OnlyBodies(s.log[..|s.log| - 1]))
  {
    EveryRunIsSound(expected, h, es);
    var s, arrived := Run(expected, h, es), Arrived(es);
    if !s.done {
      assert Payload(s.log) + [] == Payload(s.log);
      assert arrived[..|arrived|] == arrived;
    } else {
      var body := arrived[..expected];
      Snoc([Body(body)], Done);
      Snoc([], Body(body));
      assert Buffered(body) == ([] + [Body(body)]) + [Done];
    }
  }

  predicate HasAbort(es: seq<Event>) {
    exists i | 0 <= i < |es| :: es[i].Abort?
  }

  lemma AbortSnoc(init: seq<Event>, e: Event)
    ensures HasAbort(init + [e]) <==> HasAbort(init) || e.Abort?
  {
    var es := init + [e];
    assert forall i | 0 <= i < |init| :: es[i] == init[i];
    assert es[|init|] == e;
  }

  /** The pieces, without the end. */
  function Pieces(s: Stream): seq<Delivery> {
    if s.done && s.log != [] then s.log[..|s.log| - 1] else s.log
  }

  /** The connection is closing exactly if the application aborted between two reads, or on the
      last piece it was given. */
  lemma {:induction false} AbortedExactly(expected: nat, h: Handler, es: seq<Event>)
    requires expected > 0
    ensures
      var s := Run(expected, h, es);
      s.closing <==> HasAbort(es) || (Pieces(s) != [] && h(Pieces(s)))
  {
    if es != [] {
      var init, e := es[..|es| - 1], es[|es| - 1];
      assert es == init + [e];
      AbortedExactly(expected, h, init);
      EveryRunIsSound(expected, h, init);
      AbortSnoc(init, e);
    }
  }

  /** What is left in the buffer when the body ends is dropped; what comes later is kept. */
  lemma EndDropsTheRest(s: Stream, h: Handler, p: bytes)
    requires s.done ==> s.received >= s.expected
    ensures
      var d := Step(s, h, Packet(p));
      d.done ==> d.recv == if s.done then s.recv + p else []
  {
  }

  function RunFrom(s: Stream, h: Handler, es: seq<Event>): Stream {
    if es == [] then s else Step(RunFrom(s, h, es[..|es| - 1]), h, es[|es| - 1])
  }

  lemma {:induction false} ClosingIsFinal(s: Stream, h: Handler, es: seq<Event>)
    requires s.closing && (s.received >= s.expected ==> s.done)
    ensures RunFrom(s, h, es) == s.(recv := RunFrom(s, h, es).recv)
  {
    if es != [] {
      ClosingIsFinal(s, h, es[..|es| - 1]);
    }
  }

  /** An abort stops delivery for good, in every later run. The end has then been given
      exactly if the whole body had: an abort on the last piece does not hold it back. */
  lemma AbortStopsDelivery(s: Stream, h: Handler, es: seq<Event>, arrived: bytes)
    requires Sound(s, arrived) && s.closing
    ensures RunFrom(s, h, es).log == s.log
    ensures s.log != [] && s.log[|s.log| - 1] == Done <==> |Payload(s.log)| == s.expected
  {
    ClosingIsFinal(s, h, es);
  }

  // -------------------------------------------------------------------------
  // The request in place
  // -------------------------------------------------------------------------

  class HttpClientRequest {
    const stream: bool
    const aborts: Handler
    var streaming: bool
    var streamDone: bool
    var expected: nat
    var received: nat
    var recv: bytes
    var isClosing: bool
    var log: seq<Delivery>  // what the application has been given

    ghost function View(): Stream
      reads this
    {
      Stream(expected, received, recv, isClosing, streamDone, log)
    }

    constructor (stream: bool, h: Handler)
      ensures !streaming && View() == Stream(0, 0, [], false, false, []) && this.stream == stream && aborts == h
    {
      this.stream, aborts := stream, h;
      streaming, streamDone, expected, received, recv, isClosing, log := false, false, 0, 0, [], false, [];
    }

    /** `onReceive`, on what is in the buffer. */
    method Receive()
      requires streaming
      modifies this
      ensures streaming && View() == Step(old(View()), aborts, Packet([]))
    {
      assert recv + [] == recv;
      ghost var start, rounds := View(), 0;
      while recv != [] && received < expected && !isClosing
        invariant streaming && 0 <= rounds <= 1
        invariant rounds == 0 ==> View() == start
        invariant rounds == 1 ==> start.recv != [] && start.received < start.expected && !start.closing
                                  && View() == Take(start, aborts) && (recv == [] || received == expected)
        decreases |recv|
      {
        var n := if |recv| < expected - received then |recv| else expected - received;
        var chunk := recv[..n];
        received := received + n;
        log := log + [Body(chunk)];
        isClosing := isClosing || aborts(log);
        recv := recv[n..];
        rounds := 1;
      }
      if received >= expected && !streamDone {
        streamDone := true;
        recv := [];
        log := log + [Done];
      }
    }

    method OnReceive(packet: bytes)
      modifies this
      ensures streaming == old(streaming)
      ensures !streaming ==> View() == old(View()).(recv := old(recv) + packet)
      ensures streaming ==> View() == Step(old(View()), aborts, Packet(packet))
    {
      recv := recv + packet;
      assert old(recv) + packet + [] == old(recv) + packet;
      if streaming {
        Receive();
      }
    }

    /** The headers event: switch to streaming if the body's end can be found by counting. */
    method HandleHeaders(chunked: bool, hasLength: bool, bodyLength: nat, head: nat, parses: bool)
      requires !streaming && expected == 0 && received == 0 && log == [] && !streamDone && head <= |recv|
      modifies this
      ensures streaming <==> stream && !chunked && hasLength && bodyLength > 0 && parses
      ensures streaming ==>
                View() == Step(Stream(bodyLength, 0, [], old(isClosing), false, []), aborts, Packet(old(recv)[head..]))
      ensures !streaming ==> View() == old(View())
    {
      if stream && !streaming && !chunked && hasLength && bodyLength > 0 {
        if parses {
          expected := bodyLength;
          received := 0;
          streaming := true;
          recv := recv[head..];
          assert recv + [] == recv == [] + recv;
          Receive();
        }
      }
    }

    /** The message event: the buffered path. */
    method HandleMessage(body: bytes)
      modifies `log
      ensures log == old(log) + Buffered(body)
    {
      log := log + [Body(body)];
      log := log + [Done];
    }
  }
}
