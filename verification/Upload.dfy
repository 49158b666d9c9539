/** Uploads: the raw body streamed as it arrives, and the buffered multipart body. */
module Upload {
  import opened Bytes
  import opened Wrappers

  // -------------------------------------------------------------------------
  // The raw path
  // -------------------------------------------------------------------------

  datatype Callback = Begin | Data(index: nat, data: bytes) | End(index: nat)

  /** The application: has it answered, once these callbacks have been delivered? */
  type Handler = seq<Callback> -> bool

  datatype Raw = Raw(expected: nat, received: nat, recv: bytes, answered: bool, trace: seq<Callback>)

  /** Body bytes arrive, or the application answers between two reads. */
  datatype Event = Packet(data: bytes) | Reply

  /** How much of the buffer one DATA callback takes. */
  function Portion(u: Raw): (n: nat)
    ensures n <= |u.recv| && (u.recv != [] ==> n > 0)
  {
    if u.expected > u.received then Min(|u.recv|, u.expected - u.received) else |u.recv|
  }

  function Deliver(u: Raw, h: Handler): Raw
    requires u.recv != [] && !u.answered
  {
    var n := Portion(u);
    var trace := u.trace + [Data(u.received, u.recv[..n])];
    u.(trace := trace, answered := h(trace), received := u.received + n, recv := u.recv[n..])
  }

  function Finish(u: Raw, h: Handler): Raw {
    if u.expected > 0 && u.received >= u.expected && !u.answered then
      var trace := u.trace + [End(u.received)];
      u.(trace := trace, answered := h(trace))
    else u
  }

  function Step(u: Raw, h: Handler, e: Event): Raw {
    match e
    case Packet(p) =>
      var v := u.(recv := u.recv + p);
      if v.recv == [] || v.answered then v else Finish(Deliver(v, h), h)
    case Reply => u.(answered := true)
  }

  /** After the headers: the request handler ran, then BEGIN was delivered. */
  function Opened(expected: nat, h: Handler): Raw {
    if h([]) then Raw(expected, 0, [], true, [])
    else Raw(expected, 0, [], h([Begin]), [Begin])
  }

  function Run(expected: nat, h: Handler, es: seq<Event>): Raw {
    if es == [] then Opened(expected, h) else Step(Run(expected, h, es[..|es| - 1]), h, es[|es| - 1])
  }

  function Arrived(es: seq<Event>): bytes {
    if es == [] then [] else
      Arrived(es[..|es| - 1]) + if es[|es| - 1].Packet? then es[|es| - 1].data else []
  }

  function Payload(trace: seq<Callback>): bytes {
    if trace == [] then [] else
      Payload(trace[..|trace| - 1]) + if trace[|trace| - 1].Data? then trace[|trace| - 1].data else []
  }

  function Ends(trace: seq<Callback>): nat {
    if trace == [] then 0 else Ends(trace[..|trace| - 1]) + if trace[|trace| - 1].End? then 1 else 0
  }

  /** BEGIN first and once; every index is the number of bytes delivered before it. */
  predicate Indexed(trace: seq<Callback>) {
    trace == [] ||
    var init, c := trace[..|trace| - 1], trace[|trace| - 1];
    match c
    case Begin => init == []
    case Data(i, d) => init != [] && Indexed(init) && i == |Payload(init)| && d != []
    case End(i) => init != [] && Indexed(init) && i == |Payload(init)|
  }

  /** The trace stops at the callback the application answered on. */
  predicate StopsAtAnswer(h: Handler, trace: seq<Callback>) {
    forall k | 0 <= k < |trace| :: !h(trace[..k])
  }

  lemma Snoc(trace: seq<Callback>, c: Callback)
    ensures (trace + [c])[..|trace|] == trace
    ensures Payload(trace + [c]) == Payload(trace) + if c.Data? then c.data else []
    ensures Ends(trace + [c]) == Ends(trace) + if c.End? then 1 else 0
  {
    assert (trace + [c])[..|trace|] == trace;
  }

  lemma StopSnoc(h: Handler, trace: seq<Callback>, c: Callback)
    requires StopsAtAnswer(h, trace) && !h(trace)
    ensures StopsAtAnswer(h, trace + [c])
  {
    forall k | 0 <= k < |trace| + 1 ensures !h((trace + [c])[..k]) {
      assert (trace + [c])[..k] == trace[..k];
      assert trace[..|trace|] == trace;
    }
  }

  /** What every run keeps. */
  ghost predicate Sound(u: Raw, h: Handler, arrived: bytes) {
    && Indexed(u.trace) && StopsAtAnswer(h, u.trace)
    && (!u.answered ==> u.trace != [] && !h(u.trace))
    && u.received == |Payload(u.trace)|
    && Payload(u.trace) + u.recv == arrived
    // up to the first END
    && (u.expected > 0 && Ends(u.trace) == 0 && !u.answered ==> u.recv == [] && u.received < u.expected)
    && (u.expected > 0 && Ends(u.trace) == 0 ==> u.received <= u.expected)
    && (u.expected > 0 && Ends(u.trace) > 0 ==> u.received >= u.expected)
    && (u.expected == 0 ==> Ends(u.trace) == 0 && (!u.answered ==> u.recv == []))
  }

  lemma DeliverKeepsSound(u: Raw, h: Handler, arrived: bytes)
    requires Indexed(u.trace) && StopsAtAnswer(h, u.trace) && u.trace != [] && !h(u.trace)
    requires !u.answered && u.recv != [] && u.received == |Payload(u.trace)|
    requires Payload(u.trace) + u.recv == arrived
    ensures
      var v := Deliver(u, h);
      && Indexed(v.trace) && StopsAtAnswer(h, v.trace) && v.trace != []
      && v.received == |Payload(v.trace)| && Payload(v.trace) + v.recv == arrived
      && Ends(v.trace) == Ends(u.trace) && v.answered == h(v.trace)
  {
    var n := Portion(u);
    var c := Data(u.received, u.recv[..n]);
    Snoc(u.trace, c);
    StopSnoc(h, u.trace, c);
    assert u.recv == u.recv[..n] + u.recv[n..];
  }

  lemma FinishKeepsSound(u: Raw, h: Handler)
    requires Indexed(u.trace) && StopsAtAnswer(h, u.trace) && u.trace != [] && u.answered == h(u.trace)
    requires u.received == |Payload(u.trace)|
    ensures
      var v := Finish(u, h);
      && Indexed(v.trace) && StopsAtAnswer(h, v.trace) && v.trace != []
      && Payload(v.trace) == Payload(u.trace) && v.answered == h(v.trace)
      && v.received == u.received && v.recv == u.recv && v.expected == u.expected
      && Ends(v.trace) == Ends(u.trace) + if u.expected > 0 && u.received >= u.expected && !u.answered then 1 else 0
  {
    var c := End(u.received);
    Snoc(u.trace, c);
    if !u.answered {
      StopSnoc(h, u.trace, c);
    }
  }

  lemma ReadKeepsSound(u: Raw, h: Handler, arrived: bytes, v: Raw, d: Raw)
    requires Sound(u, h, arrived) && u.expected == v.expected && u.trace == v.trace && !u.answered && !v.answered
    requires v.received == u.received && v.recv != [] && d == Deliver(v, h)
    requires Ends(d.trace) == Ends(u.trace)
    ensures u.expected > 0 && Ends(d.trace) == 0 && !d.answered && d.received < d.expected ==> d.recv == []
    ensures u.expected > 0 && Ends(d.trace) == 0 ==> d.received <= d.expected
    ensures u.expected > 0 && Ends(d.trace) > 0 ==> d.received >= d.expected
    ensures u.expected == 0 ==> d.recv == []
  {
  }

  lemma StepKeepsSound(u: Raw, h: Handler, arrived: bytes, e: Event)
    requires Sound(u, h, arrived)
    ensures Sound(Step(u, h, e), h, arrived + if e.Packet? then e.data else [])
  {
    if e.Packet? {
      var v := u.(recv := u.recv + e.data);
      assert Payload(v.trace) + v.recv == arrived + e.data;
      if v.recv != [] && !v.answered {
        var d := Deliver(v, h);
        DeliverKeepsSound(v, h, arrived + e.data);
        ReadKeepsSound(u, h, arrived, v, d);
        FinishKeepsSound(d, h);
      }
    } else {
      assert arrived + [] == arrived;
    }
  }

  /** The raw upload trace over any packetisation: BEGIN, then DATA whose indices are running
      totals and whose bytes are exactly what arrived and is no longer buffered, and nothing
      after the callback the application answered on. */
  lemma {:induction false} EveryRunIsSound(expected: nat, h: Handler, es: seq<Event>)
    ensures Sound(Run(expected, h, es), h, Arrived(es)) && Run(expected, h, es).expected == expected
  {
    if es != [] {
      EveryRunIsSound(expected, h, es[..|es| - 1]);
      StepKeepsSound(Run(expected, h, es[..|es| - 1]), h, Arrived(es[..|es| - 1]), es[|es| - 1]);
    } else {
      var t: seq<Callback> := [Begin];
      assert t[..0] == [];
      assert Payload(t) == Payload(t[..0]) + [];
      assert Ends(t) == Ends(t[..0]);
    }
  }

  /** With a length declared and no answer yet: all that arrived was delivered, and END has
      been delivered exactly when the whole body has arrived. */
  lemma UnansweredUpload(expected: nat, h: Handler, es: seq<Event>)
    requires expected > 0 && !Run(expected, h, es).answered
    ensures
      var u := Run(expected, h, es);
      && (Ends(u.trace) > 0 <==> |Arrived(es)| >= expected)
      && (Ends(u.trace) == 0 ==> Payload(u.trace) == Arrived(es))
  {
    EveryRunIsSound(expected, h, es);
    var u := Run(expected, h, es);
    if Ends(u.trace) == 0 {
      assert Payload(u.trace) + [] == Payload(u.trace);
    }
  }

  predicate HasEnd(trace: seq<Callback>) {
    exists k | 0 <= k < |trace| :: trace[k].End?
  }

  lemma {:induction false} EndsCountsEnds(trace: seq<Callback>)
    ensures Ends(trace) > 0 <==> HasEnd(trace)
  {
    if trace != [] {
      var init := trace[..|trace| - 1];
      EndsCountsEnds(init);
      if HasEnd(init) {
        var k :| 0 <= k < |init| && init[k].End?;
        assert trace[k].End?;
      }
      if HasEnd(trace) && !trace[|trace| - 1].End? {
        var k :| 0 <= k < |trace| && trace[k].End?;
        assert init[k].End?;
      }
    }
  }

  /** The first END comes right after the last declared byte and carries that index. */
  ghost predicate FirstEndIsExact(trace: seq<Callback>, expected: nat, arrived: bytes) {
    forall k | 0 <= k < |trace| && trace[k].End? && Ends(trace[..k]) == 0 ::
      trace[k] == End(expected) && expected <= |arrived| && Payload(trace[..k]) == arrived[..expected]
  }

  lemma {:induction false} FirstEndAtDeclaredLength(expected: nat, h: Handler, es: seq<Event>)
    requires expected > 0
    ensures FirstEndIsExact(Run(expected, h, es).trace, expected, Arrived(es))
  {
    if es != [] {
      var init, e := es[..|es| - 1], es[|es| - 1];
      FirstEndAtDeclaredLength(expected, h, init);
      EveryRunIsSound(expected, h, init);
      if e.Packet? {
        FirstEndStep(Run(expected, h, init), h, Arrived(init), e.data);
      } else {
        assert Arrived(init) + [] == Arrived(init);
      }
    }
  }

  lemma FirstEndStep(u: Raw, h: Handler, arrived: bytes, p: bytes)
    requires Sound(u, h, arrived) && u.expected > 0 && FirstEndIsExact(u.trace, u.expected, arrived)
    ensures FirstEndIsExact(Step(u, h, Packet(p)).trace, u.expected, arrived + p)
  {
    var w := Step(u, h, Packet(p));
    forall k | 0 <= k < |w.trace| && w.trace[k].End? && Ends(w.trace[..k]) == 0
      ensures w.trace[k] == End(u.expected) && u.expected <= |arrived + p|
      ensures Payload(w.trace[..k]) == (arrived + p)[..u.expected]
    {
      if k < |u.trace| {
        TraceGrows(u, h, p);
        assert w.trace[k] == u.trace[k] && w.trace[..k] == u.trace[..k];
        assert (arrived + p)[..u.expected] == arrived[..u.expected];
      } else {
        NewEndIsExact(u, h, arrived, p, k);
      }
    }
  }

  lemma TraceGrows(u: Raw, h: Handler, p: bytes)
    ensures u.trace <= Step(u, h, Packet(p)).trace
  {
  }

  lemma NewEndIsExact(u: Raw, h: Handler, arrived: bytes, p: bytes, k: nat)
    requires Sound(u, h, arrived) && u.expected > 0
    requires var w := Step(u, h, Packet(p)); |u.trace| <= k < |w.trace| && w.trace[k].End? && Ends(w.trace[..k]) == 0
    ensures
      var w := Step(u, h, Packet(p));
      && w.trace[k] == End(u.expected) && u.expected <= |arrived + p|
      && Payload(w.trace[..k]) == (arrived + p)[..u.expected]
  {
    var v := u.(recv := u.recv + p);
    assert Payload(v.trace) + v.recv == arrived + p;
    DeliverKeepsSound(v, h, arrived + p);
    var d := Deliver(v, h);
    var w := Finish(d, h);
    assert w.trace[..k] == d.trace && k == |d.trace|;
    assert Ends(u.trace) == 0;
    assert d.received == u.expected;
    assert Payload(d.trace) == (Payload(d.trace) + d.recv)[..u.expected];
  }

  /** A second END: once the body has ended, a read delivers another one exactly when the
      application has not answered, bytes beyond the declared length are there, and it does
      not answer on those bytes either. */
  lemma ExtraBytesRepeatEnd(u: Raw, h: Handler, p: bytes)
    requires u.expected > 0 && u.received >= u.expected
    ensures
      var w := Step(u, h, Packet(p));
      Ends(w.trace) > Ends(u.trace) <==>
        !u.answered && u.recv + p != [] && !h(u.trace + [Data(u.received, u.recv + p)])
  {
    var v := u.(recv := u.recv + p);
    assert v.recv[..|v.recv|] == v.recv;
    Snoc(u.trace, Data(u.received, v.recv));
    if v.recv != [] && !v.answered {
      var d := Deliver(v, h);
      Snoc(d.trace, End(d.received));
    }
  }

  lemma OneOctet(u: Raw, h: Handler, b: byte)
    requires u.expected == 1 && u.recv == [] && !u.answered && forall t :: !h(t)
    ensures Step(u, h, Packet([b])) ==
            u.(received := u.received + 1, trace := u.trace + [Data(u.received, [b]), End(u.received + 1)])
  {
    var v := u.(recv := [b]);
    assert u.recv + [b] == [b];
    assert Portion(v) == 1 && [b][..1] == [b] && [b][1..] == [];
    assert u.trace + [Data(u.received, [b])] + [End(u.received + 1)]
        == u.trace + [Data(u.received, [b]), End(u.received + 1)];
  }

  /** A body of one octet and one octet more, never answered: two ENDs. */
  lemma TwoEnds(h: Handler)
    requires forall t :: !h(t)
    ensures Run(1, h, [Packet([7]), Packet([9])]).trace == [Begin, Data(0, [7]), End(1), Data(1, [9]), End(2)]
  {
    var es := [Packet([7]), Packet([9])];
    assert es[..1] == [Packet([7])] && es[..1][..0] == [];
    assert Run(1, h, es[..0]) == Opened(1, h);
    OneOctet(Opened(1, h), h, 7);
    assert Run(1, h, es[..1]) == Step(Opened(1, h), h, es[0]);
    OneOctet(Run(1, h, es[..1]), h, 9);
  }

  predicate HasReply(es: seq<Event>) {
    exists i | 0 <= i < |es| :: es[i].Reply?
  }

  lemma ReplySnoc(init: seq<Event>, e: Event)
    ensures HasReply(init + [e]) <==> HasReply(init) || e.Reply?
  {
    var es := init + [e];
    assert forall i | 0 <= i < |init| :: es[i] == init[i];
    assert es[|init|] == e;
  }

  /** The request has been answered exactly if the application answered between two reads, or on
      the last callback it was given. */
  lemma {:induction false} AnsweredExactly(expected: nat, h: Handler, es: seq<Event>)
    ensures var u := Run(expected, h, es); u.answered <==> HasReply(es) || h(u.trace)
  {
    if es != [] {
      var init, e := es[..|es| - 1], es[|es| - 1];
      assert es == init + [e];
      AnsweredExactly(expected, h, init);
      ReplySnoc(init, e);
    }
  }

  /** Once the application has answered, from a callback or between two reads, no callback
      follows in any later run. */
  lemma {:induction false} NothingFollowsTheAnswer(expected: nat, h: Handler, es: seq<Event>, k: nat)
    requires k <= |es| && Run(expected, h, es[..k]).answered
    ensures Run(expected, h, es).answered && Run(expected, h, es).trace == Run(expected, h, es[..k]).trace
  {
    if k < |es| {
      assert es[..|es| - 1][..k] == es[..k];
      NothingFollowsTheAnswer(expected, h, es[..|es| - 1], k);
    } else {
      assert es[..k] == es;
    }
  }

  // -------------------------------------------------------------------------
  // What is stripped
  // -------------------------------------------------------------------------

  /** The constructor drops as many octets as the head has, from the front of the receive
      buffer. The parser looks at the head behind whatever requests it has already served from
      the same buffer, and `before` are theirs: they are not taken out first. */
  function Stripped(before: bytes, head: bytes, body: bytes): bytes {
    (before + head + body)[|head|..]
  }

  /** What is left is the body exactly if no earlier request is still in the buffer. */
  lemma BodyIsLeft(before: bytes, head: bytes, body: bytes)
    ensures Stripped(before, head, body) == body <==> before == []
  {
    if before == [] {
      assert before + head + body == head + body;
    } else {
      assert |Stripped(before, head, body)| == |before| + |body|;
    }
  }

  /** Otherwise the upload begins with the tail of what came before the body. */
  lemma LeftoverComesFirst(before: bytes, head: bytes, body: bytes)
    ensures Stripped(before, head, body) == (before + head)[|head|..] + body
    ensures |(before + head)[|head|..]| == |before|
  {
    assert before + head + body == (before + head) + body;
  }

  lemma LeftoverShifts(before: bytes, head: bytes, body: bytes, more: bytes)
    ensures Stripped(before, head, body) + more == (before + head)[|head|..] + (body + more)
    ensures (before + head)[|head|..] + (body + more) == body + more <==> before == []
  {
    LeftoverComesFirst(before, head, body);
    var left, sent := (before + head)[|head|..], body + more;
    assert left + body + more == left + sent;
    assert |left + sent| == |before| + |sent|;
    assert left == [] ==> left + sent == sent;
  }

  /** All that is delivered, over every run: what was left over, then body and packets. So,
      unanswered, the application is given the body sent exactly if nothing was left over. */
  lemma UploadDeliversTheBody(expected: nat, h: Handler, before: bytes, head: bytes, body: bytes, es: seq<Event>)
    requires expected > 0
    ensures
      var u := Run(expected, h, [Packet(Stripped(before, head, body))] + es);
      var sent := body + Arrived(es);
      && Payload(u.trace) + u.recv == (before + head)[|head|..] + sent
      && (!u.answered && Ends(u.trace) == 0 ==> (Payload(u.trace) == sent <==> before == []))
  {
    var first := Stripped(before, head, body);
    EveryRunIsSound(expected, h, [Packet(first)] + es);
    ArrivedFirst(first, es);
    LeftoverShifts(before, head, body, Arrived(es));
    var u := Run(expected, h, [Packet(first)] + es);
    assert u.recv == [] ==> Payload(u.trace) + u.recv == Payload(u.trace);
  }

  lemma {:induction false} ArrivedFirst(p: bytes, es: seq<Event>)
    ensures Arrived([Packet(p)] + es) == p + Arrived(es)
  {
    var all := [Packet(p)] + es;
    if es == [] {
      assert all[..0] == [] && Arrived(all[..0]) + p == p;
    } else {
      assert all[..|all| - 1] == [Packet(p)] + es[..|es| - 1];
      ArrivedFirst(p, es[..|es| - 1]);
    }
  }

  /** A request of one octet served from the same read, then an upload of two. The first DATA
      carries the end of the head; the last octet of the body comes after an END, when the event
      that carried the head reaches the request a second time, and brings another one. */
  lemma PipelinedUpload(h: Handler)
    requires forall t :: !h(t)
    ensures Run(2, h, [Packet(Stripped([71], [80, 10], [1, 2])), Packet([])]).trace
         == [Begin, Data(0, [10, 1]), End(2), Data(2, [2]), End(3)]
  {
    var left: bytes := [10, 1, 2];
    assert [71] + [80, 10] + [1, 2] == [71, 80, 10, 1, 2];
    assert Stripped([71], [80, 10], [1, 2]) == left;
    var es := [Packet(left), Packet([])];
    assert es[..1] == [Packet(left)] && es[..1][..0] == [];
    PipelinedFirst(h);
    assert Run(2, h, es[..1]) == Step(Opened(2, h), h, Packet(left));
    PipelinedSecond(h);
  }

  lemma PipelinedFirst(h: Handler)
    requires forall t :: !h(t)
    ensures Step(Opened(2, h), h, Packet([10, 1, 2])) == Raw(2, 2, [2], false, [Begin, Data(0, [10, 1]), End(2)])
  {
    var left: bytes := [10, 1, 2];
    assert [] + left == left && left[..2] == [10, 1] && left[2..] == [2];
  }

  lemma PipelinedSecond(h: Handler)
    requires forall t :: !h(t)
    ensures Step(Raw(2, 2, [2], false, [Begin, Data(0, [10, 1]), End(2)]), h, Packet([])).trace
         == [Begin, Data(0, [10, 1]), End(2), Data(2, [2]), End(3)]
  {
    assert [2] + [] == [2] && [2][..1] == [2];
  }

  // -------------------------------------------------------------------------
  // The raw path in place
  // -------------------------------------------------------------------------

  class RawUpload {
    const answers: Handler
    const bodyExpected: nat
    var bodyReceived: nat
    var recv: bytes
    var responseSent: bool
    var trace: seq<Callback>  // what the application has seen

    ghost function View(): Raw
      reads this
    {
      Raw(bodyExpected, bodyReceived, recv, responseSent, trace)
    }

    /** The raw branch of the constructor: strip the head, ask the request handler, deliver
        BEGIN, then whatever is left in the buffer. */
    constructor (h: Handler, expected: nat, before: bytes, head: bytes, body: bytes)
      ensures answers == h && bodyExpected == expected
      ensures View() == if h([]) || h([Begin]) then Opened(expected, h).(recv := Stripped(before, head, body))
                        else Step(Opened(expected, h), h, Packet(Stripped(before, head, body)))
    {
      answers, bodyExpected, bodyReceived := h, expected, 0;
      recv := (before + head + body)[|head|..];
      trace := [];
      responseSent := h([]);
      new;
      if responseSent {
        return;
      }
      CallUpload(Begin);
      assert trace == [Begin];
      if responseSent {
        return;
      }
      var left := Stripped(before, head, body);
      assert [] + left == left && left + [] == left;
      assert View() == Opened(expected, h).(recv := left);
      if recv != [] {
        Receive();
      }
    }

    method CallUpload(c: Callback)
      modifies `trace, `responseSent
      ensures trace == old(trace) + [c] && responseSent == (old(responseSent) || answers(trace))
    {
      trace := trace + [c];
      responseSent := responseSent || answers(trace);
    }

    /** `onReceive`, on what is in the buffer. */
    method Receive()
      modifies this
      ensures View() == Step(old(View()), answers, Packet([]))
    {
      assert recv + [] == recv;
      if responseSent {
        return;
      }
      ghost var start, rounds := View(), 0;
      while recv != [] && !responseSent
        invariant rounds == 0 ==> View() == start
        invariant rounds == 1 ==> start.recv != [] && View() == Deliver(start, answers)
                                  && recv == [] && (bodyExpected == 0 || bodyReceived < bodyExpected)
        invariant 0 <= rounds <= 1
        decreases |recv|
      {
        var available := |recv|;
        var toProcess := if bodyExpected > 0 && bodyExpected > bodyReceived
                         then Min(available, bodyExpected - bodyReceived) else available;
        if toProcess == 0 {
          break;
        }
        CallUpload(Data(bodyReceived, recv[..toProcess]));
        bodyReceived := bodyReceived + toProcess;
        recv := recv[toProcess..];
        rounds := 1;
        if bodyExpected > 0 && bodyReceived >= bodyExpected {
          if !responseSent {
            CallUpload(End(bodyReceived));
          }
          break;
        }
      }
    }

    method OnReceive(packet: bytes)
      modifies this
      ensures View() == Step(old(View()), answers, Packet(packet))
    {
      recv := recv + packet;
      Receive();
      assert old(recv) + packet + [] == old(recv) + packet;
    }
  }

  // -------------------------------------------------------------------------
  // The multipart path
  // -------------------------------------------------------------------------

  datatype Part = Part(filename: bytes, body: bytes)

  datatype PartCallback =
    | PartBegin(filename: bytes, index: nat)
    | PartData(filename: bytes, index: nat, data: bytes)
    | PartEnd(filename: bytes, index: nat)

  type PartHandler = seq<PartCallback> -> bool

  function TotalBefore(parts: seq<Part>, n: nat): nat
    requires n <= |parts|
  {
    if n == 0 then 0 else TotalBefore(parts, n - 1) + |parts[n - 1].body|
  }

  /** BEGIN DATA END for each of the first `n` parts, indices running over all of them. */
  function Whole(parts: seq<Part>, n: nat): (t: seq<PartCallback>)
    requires n <= |parts|
    ensures |t| == 3 * n
  {
    if n == 0 then [] else
      var p, i := parts[n - 1], TotalBefore(parts, n - 1);
      Whole(parts, n - 1) + [PartBegin(p.filename, i), PartData(p.filename, i, p.body),
                             PartEnd(p.filename, i + |p.body|)]
  }

  lemma {:induction false} WholeGrows(parts: seq<Part>, m: nat, n: nat)
    requires m <= n <= |parts|
    ensures Whole(parts, m) <= Whole(parts, n)
    decreases n
  {
    if m < n {
      WholeGrows(parts, m, n - 1);
    }
  }

  /** The body bytes a trace has delivered. */
  function DataLength(t: seq<PartCallback>): nat {
    if t == [] then 0 else
      DataLength(t[..|t| - 1]) + match t[|t| - 1] case PartData(_, _, data) => |data| case _ => 0
  }

  lemma DataLengthSnoc(t: seq<PartCallback>, c: PartCallback)
    ensures DataLength(t + [c]) == DataLength(t) + match c case PartData(_, _, data) => |data| case _ => 0
  {
    assert (t + [c])[..|t|] == t;
  }

  lemma DataLengthOfPart(t: seq<PartCallback>, name: bytes, i: nat, j: nat, body: bytes)
    ensures DataLength(t + [PartBegin(name, i), PartData(name, i, body), PartEnd(name, j)]) == DataLength(t) + |body|
  {
    var x, y := t + [PartBegin(name, i)], t + [PartBegin(name, i), PartData(name, i, body)];
    DataLengthSnoc(t, PartBegin(name, i));
    assert y == x + [PartData(name, i, body)];
    DataLengthSnoc(x, PartData(name, i, body));
    assert t + [PartBegin(name, i), PartData(name, i, body), PartEnd(name, j)] == y + [PartEnd(name, j)];
    DataLengthSnoc(y, PartEnd(name, j));
  }

  lemma {:induction false} TotalIsDelivered(parts: seq<Part>, n: nat)
    requires n <= |parts|
    ensures TotalBefore(parts, n) == DataLength(Whole(parts, n))
  {
    if n > 0 {
      TotalIsDelivered(parts, n - 1);
      var p, i := parts[n - 1], TotalBefore(parts, n - 1);
      DataLengthOfPart(Whole(parts, n - 1), p.filename, i, i + |p.body|, p.body);
    }
  }

  /** A trace that goes as far as the application lets it. */
  predicate CutAtAnswer(full: seq<PartCallback>, trace: seq<PartCallback>, h: PartHandler) {
    && trace <= full
    && (forall k | 0 <= k < |trace| :: !h(trace[..k]))
    && (trace == full || h(trace))
  }

  /** `full` up to the first point at which the application has answered. */
  function Cut(full: seq<PartCallback>, h: PartHandler, from: nat): seq<PartCallback>
    requires from <= |full|
    decreases |full| - from
  {
    if from == |full| || h(full[..from]) then full[..from] else Cut(full, h, from + 1)
  }

  /** There is exactly one such trace, so the parts and the application alone pin it down. */
  lemma {:induction false} CutIsExact(full: seq<PartCallback>, h: PartHandler, from: nat, trace: seq<PartCallback>)
    requires from <= |full| && forall k | 0 <= k < from :: !h(full[..k])
    ensures CutAtAnswer(full, trace, h) <==> trace == Cut(full, h, from)
    decreases |full| - from
  {
    if from == |full| || h(full[..from]) {
      var cut := full[..from];
      assert forall k | 0 <= k < |cut| :: cut[..k] == full[..k];
      assert trace <= full ==> forall k | 0 <= k < |trace| :: trace[..k] == full[..k];
      assert trace <= full ==> trace == full[..|trace|];
      assert full[..|full|] == full;
    } else {
      CutIsExact(full, h, from + 1, trace);
    }
  }

  predicate Running(full: seq<PartCallback>, trace: seq<PartCallback>, h: PartHandler) {
    trace <= full && forall k | 0 <= k <= |trace| :: !h(trace[..k])
  }

  lemma OneMore(full: seq<PartCallback>, trace: seq<PartCallback>, h: PartHandler, c: PartCallback)
    requires Running(full, trace, h) && trace + [c] <= full
    ensures h(trace + [c]) ==> CutAtAnswer(full, trace + [c], h)
    ensures !h(trace + [c]) ==> Running(full, trace + [c], h)
  {
    var t := trace + [c];
    forall k | 0 <= k <= |trace| ensures !h(t[..k]) {
      assert t[..k] == trace[..k];
    }
    assert t[..|t|] == t;
  }

  /** `handleMessage` once the request handler has run: `h([])` is its answer. */
  method Multipart(parts: seq<Part>, h: PartHandler) returns (trace: seq<PartCallback>)
    ensures trace == Cut(Whole(parts, |parts|), h, 0)
  {
    trace := DeliverParts(parts, h);
    CutIsExact(Whole(parts, |parts|), h, 0, trace);
  }

  lemma PartIsNext(parts: seq<Part>, n: nat)
    requires n < |parts|
    ensures
      var p, i, t, full := parts[n], TotalBefore(parts, n), Whole(parts, n), Whole(parts, |parts|);
      && Whole(parts, n + 1) == t + [PartBegin(p.filename, i)] + [PartData(p.filename, i, p.body)]
                                  + [PartEnd(p.filename, i + |p.body|)]
      && t + [PartBegin(p.filename, i)] <= full
      && t + [PartBegin(p.filename, i)] + [PartData(p.filename, i, p.body)] <= full
      && Whole(parts, n + 1) <= full
  {
    WholeGrows(parts, n + 1, |parts|);
    var p, i, t := parts[n], TotalBefore(parts, n), Whole(parts, n);
    assert Whole(parts, n + 1) == t + [PartBegin(p.filename, i)] + [PartData(p.filename, i, p.body)]
                                    + [PartEnd(p.filename, i + |p.body|)];
  }

  /** Each part begins at the number of body bytes delivered before it, gives its whole body
      under that index, and ends as many bytes further on. */
  lemma PartsAreIndexed(parts: seq<Part>, k: nat)
    requires k < |parts|
    ensures
      var full, p := Whole(parts, |parts|), parts[k];
      var before := DataLength(full[..3 * k]);
      && full[3 * k] == PartBegin(p.filename, before)
      && full[3 * k + 1] == PartData(p.filename, before, p.body)
      && full[3 * k + 2] == PartEnd(p.filename, before + |p.body|)
  {
    var p, i := parts[k], TotalBefore(parts, k);
    PartIsNext(parts, k);
    TotalIsDelivered(parts, k);
    ThreeMore(Whole(parts, |parts|), Whole(parts, k), PartBegin(p.filename, i), PartData(p.filename, i, p.body),
              PartEnd(p.filename, i + |p.body|));
  }

  lemma ThreeMore(full: seq<PartCallback>, t: seq<PartCallback>, a: PartCallback, b: PartCallback, c: PartCallback)
    requires t + [a] + [b] + [c] <= full
    ensures full[..|t|] == t && full[|t|] == a && full[|t| + 1] == b && full[|t| + 2] == c
  {
    var w := t + [a] + [b] + [c];
    assert full[..|t|] == w[..|t|];
    assert full[|t|] == w[|t|] && full[|t| + 1] == w[|t| + 1] && full[|t| + 2] == w[|t| + 2];
  }

  /** One more callback, whose answer decides whether the loop goes on. */
  method Call(trace: seq<PartCallback>, h: PartHandler, c: PartCallback, ghost full: seq<PartCallback>)
    returns (next: seq<PartCallback>, responseSent: bool)
    requires Running(full, trace, h) && trace + [c] <= full
    ensures next == trace + [c]
    ensures if responseSent then CutAtAnswer(full, next, h) else Running(full, next, h)
  {
    OneMore(full, trace, h, c);
    next := trace + [c];
    responseSent := h(next);
  }

  method DeliverParts(parts: seq<Part>, h: PartHandler) returns (trace: seq<PartCallback>)
    ensures CutAtAnswer(Whole(parts, |parts|), trace, h)
  {
    trace := [];
    ghost var full := Whole(parts, |parts|);
    var responseSent := h([]);
    if responseSent {
      return;
    }
    var index, n := 0, 0;
    assert forall k | 0 <= k <= 0 :: trace[..k] == [];
    while n < |parts|
      invariant 0 <= n <= |parts| && index == TotalBefore(parts, n)
      invariant trace == Whole(parts, n) && Running(full, trace, h)
    {
      var part := parts[n];
      PartIsNext(parts, n);
      trace, responseSent := Call(trace, h, PartBegin(part.filename, index), full);
      if responseSent {
        return;
      }
      trace, responseSent := Call(trace, h, PartData(part.filename, index, part.body), full);
      index := index + |part.body|;
      if responseSent {
        return;
      }
      trace, responseSent := Call(trace, h, PartEnd(part.filename, index), full);
      if responseSent {
        return;
      }
      n := n + 1;
    }
  }

  // -------------------------------------------------------------------------
  // Which path
  // -------------------------------------------------------------------------

  datatype Path = Ordinary | Buffered | Refused | Streamed

  /** The constructor's choice: `boundary` is the multipart boundary if the content type has a
      non-empty one, `limit` the largest body it will buffer, 0 for no limit. */
  method ChoosePath(hasHandler: bool, boundary: Option<bytes>, limit: nat, chunked: bool, length: nat)
    returns (path: Path)
    ensures path == Ordinary <==> !hasHandler
    ensures path == Streamed <==> hasHandler && (boundary.None? || boundary.value == [])
    ensures path == Buffered ==> limit == 0 || (!chunked && length <= limit)
    ensures path == Refused ==> limit > 0 && (chunked || length > limit)
  {
    if !hasHandler {
      return Ordinary;
    }
    if boundary.Some? && boundary.value != [] {
      if limit > 0 && chunked {
        return Refused;
      } else if limit > 0 && length > limit {
        return Refused;
      }
      return Buffered;
    }
    return Streamed;
  }
}
