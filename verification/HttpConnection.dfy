/** One server connection as a value: who handles it, what has been queued on it, and how
    each event of the manager or the application changes that.
 */
module HttpConnection {
  import opened Bytes
  import opened Wrappers

  import R = ResponsePump

  const SEND_BUFFER_SIZE := 256
  const IO_SIZE := 512

  // -------------------------------------------------------------------------
  // What goes over the wire
  // -------------------------------------------------------------------------

  datatype Advert = KeepAlive | Close | Silent

  /** A header block: the length it declares, what it says about the connection, and how many
      octets it takes. */
  datatype Head = Head(code: nat, contentLength: nat, advert: Advert, width: nat)

  datatype Octet = HeadBlock(head: Head) | Data(b: byte)

  datatype Message = Message(head: Head, body: bytes)

  predicate Honest(m: Message) {
    m.head.contentLength == |m.body|
  }

  predicate AllHonest(ms: seq<Message>) {
    forall i | 0 <= i < |ms| :: Honest(ms[i])
  }

  function AsData(b: bytes): (r: seq<Octet>)
    ensures |r| == |b|
  {
    seq(|b|, i requires 0 <= i < |b| => Data(b[i]))
  }

  function Wire(m: Message): seq<Octet> {
    [HeadBlock(m.head)] + AsData(m.body)
  }

  function WireAll(ms: seq<Message>): seq<Octet> {
    if ms == [] then [] else WireAll(ms[..|ms| - 1]) + Wire(ms[|ms| - 1])
  }

  predicate IsData(q: seq<Octet>) {
    forall i | 0 <= i < |q| :: q[i].Data?
  }

  function Payload(q: seq<Octet>): bytes
    requires IsData(q)
  {
    seq(|q|, i requires 0 <= i < |q| => q[i].b)
  }

  /** A receiver that frames by Content-Length (section 6.3 of RFC 9112): the complete
      messages in `q`. */
  function Decode(q: seq<Octet>): seq<Message> {
    if q == [] || q[0].Data? then [] else
      var n := q[0].head.contentLength;
      if 1 + n > |q| || !IsData(q[1..1 + n]) then []
      else [Message(q[0].head, Payload(q[1..1 + n]))] + Decode(q[1 + n..])
  }

  lemma AsDataConcat(a: bytes, b: bytes)
    ensures AsData(a + b) == AsData(a) + AsData(b)
  {
  }

  /** A part of one message is nothing to the receiver. */
  lemma DecodePart(m: Message, n: nat)
    requires Honest(m) && n < |Wire(m)|
    ensures Decode(Wire(m)[..n]) == []
  {
  }

  lemma {:induction false} DecodeSnoc(ms: seq<Message>, tail: seq<Octet>)
    requires AllHonest(ms)
    ensures Decode(WireAll(ms) + tail) == ms + Decode(tail)
    decreases |ms|
  {
    if ms == [] {
      assert [] + tail == tail;
    } else {
      var init, m := ms[..|ms| - 1], ms[|ms| - 1];
      assert WireAll(ms) + tail == WireAll(init) + (Wire(m) + tail);
      DecodeSnoc(init, Wire(m) + tail);
      DecodeFirst(m, tail);
      assert ms + Decode(tail) == init + ([m] + Decode(tail));
    }
  }

  lemma DecodeFirst(m: Message, tail: seq<Octet>)
    requires Honest(m)
    ensures Decode(Wire(m) + tail) == [m] + Decode(tail)
  {
    var q, n := Wire(m) + tail, |m.body|;
    assert q[1..1 + n] == AsData(m.body);
    assert q[1 + n..] == tail;
    assert Payload(q[1..1 + n]) == m.body;
  }

  // -------------------------------------------------------------------------
  // The connection
  // -------------------------------------------------------------------------

  /** A request object: `response` holds the body bytes still to be queued, `awaiting` says its
      handler has run and has not sent anything yet. */
  datatype Request = Request(endpoint: nat, keepAlive: bool, completed: bool, awaiting: bool,
                             lastActivity: nat, response: Option<bytes>)

  datatype Owner = Server | Held(request: Request) | Nobody

  /** `queued` is all that was ever put in the send buffer; `issued` the messages begun;
      `finished` for each completed response what it advertised and whether it drained. */
  datatype Conn = Conn(owner: Owner, isResp: bool, draining: bool, sendSize: nat, sendLen: nat,
                       queued: seq<Octet>, issued: seq<Message>, finished: seq<(Advert, bool)>)

  /** How the server answers the headers of a request. */
  datatype Verdict =
    | Accept(endpoint: nat, keepAlive: bool)
    | Refuse(code: nat, body: bytes, width: nat)

  /** What a request handler does, at once or later. A response object declares a length of
      its own beside the body it holds. */
  datatype Answer =
    | Defer
    | Simple(code: nat, body: bytes, force: bool, width: nat)
    | Full(code: nat, declared: nat, body: bytes, force: bool, width: nat)

  datatype Event =
    | Parsed(verdict: Verdict, whole: bool, answer: Answer, now: nat)  // headers, and the body if it is all there
    | Later(answer: Answer, now: nat)                                  // a deferred handler answers
    | Forced                                                           // forceClose()
    | Tick(now: nat, timeout: nat)                                     // poll, or bytes written
    | Buffer(size: nat, len: nat)                                      // the manager's buffer after a write
    | Drain                                                            // the manager drains the connection

  function RoundUp(n: nat): (r: nat)
    ensures r >= n
  {
    (n + IO_SIZE - 1) / IO_SIZE * IO_SIZE
  }

  /** `mg_send`, which response bodies are written with. */
  function Put(c: Conn, octets: seq<Octet>, width: nat): Conn {
    c.(queued := c.queued + octets, sendLen := c.sendLen + width,
       sendSize := if width == 0 then c.sendSize else RoundUp(c.sendLen + width))
  }

  /** The size of the send buffer after text has been written to it one character at a time,
      each with room for a terminator behind it. */
  function Grown(size: nat, len: nat): nat {
    if len + 1 <= size then size else RoundUp(len + 1)
  }

  /** `mg_printf`, which header blocks and simple replies are written with. */
  function Print(c: Conn, octets: seq<Octet>, width: nat): Conn {
    c.(queued := c.queued + octets, sendLen := c.sendLen + width,
       sendSize := if width == 0 then c.sendSize else Grown(c.sendSize, c.sendLen + width))
  }

  function Hold(c: Conn, r: Request): Conn {
    c.(owner := Held(r))
  }

  function AdvertOf(r: Request): Advert {
    if r.keepAlive then KeepAlive else Close
  }

  function LastAdvert(c: Conn): Advert {
    if c.issued == [] then Silent else c.issued[|c.issued| - 1].head.advert
  }

  function Complete(c: Conn, now: nat): Conn
    requires c.owner.Held?
  {
    var r := c.owner.request;
    Hold(c, r.(completed := true, lastActivity := now))
      .(isResp := false, draining := c.draining || !r.keepAlive,
        finished := c.finished + [(LastAdvert(c), !r.keepAlive)])
  }

  function Space(c: Conn): nat {
    if c.sendSize == 0 then SEND_BUFFER_SIZE
    else if c.sendSize > c.sendLen then c.sendSize - c.sendLen else 0
  }

  /** `sendBody` */
  function Pump(c: Conn, now: nat): Conn
    requires c.owner.Held?
  {
    var r, space := c.owner.request, Space(c);
    if r.response.None? || space == 0 then c
    else
      var left := r.response.value;
      var n := if |left| < space then |left| else space;
      var d := Put(c, AsData(left[..n]), n);
      if n < space then Complete(Hold(d, r.(response := None)), now)
      else Hold(d, r.(response := Some(left[n..])))
  }

  function Begin(c: Conn, m: Message): Conn {
    Print(c, [HeadBlock(m.head)], m.head.width).(issued := c.issued + [m])
  }

  function Reply(c: Conn, m: Message): Conn {
    Print(Begin(c, m), AsData(m.body), |m.body|).(isResp := false)
  }

  function ReplyTo(r: Request, code: nat, declared: nat, body: bytes, width: nat): Message {
    Message(Head(code, declared, AdvertOf(r), width), body)
  }

  function Respond(c: Conn, a: Answer, now: nat): Conn
    requires c.owner.Held?
  {
    match a
    case Defer => c
    case Simple(code, body, force, width) =>
      var r := c.owner.request;
      var s := r.(keepAlive := r.keepAlive && !force, awaiting := false);
      Complete(Reply(Hold(c, s), ReplyTo(s, code, |body|, body, width)), now)
    case Full(code, declared, body, force, width) =>
      var r := c.owner.request;
      var s := r.(keepAlive := r.keepAlive && !force, awaiting := false, response := Some(body));
      Pump(Begin(Hold(c, s), ReplyTo(s, code, declared, body, width)), now)
  }

  function NewRequest(endpoint: nat, keepAlive: bool): Request {
    Request(endpoint, keepAlive, false, false, 0, None)
  }

  function RefusalOf(code: nat, body: bytes, width: nat): Message {
    Message(Head(code, |body|, Silent, width), body)
  }

  /** `MongooseHttpServer::handleHeaders` */
  function Judge(c: Conn, v: Verdict): Conn {
    match v
    case Accept(e, k) => Hold(c, NewRequest(e, k))
    case Refuse(code, body, width) => Reply(c, RefusalOf(code, body, width)).(draining := true)
  }

  /** The headers event goes to whoever handles the connection. */
  function OnHeaders(c: Conn, v: Verdict): Conn {
    match c.owner
    case Server => Judge(c, v)
    case Held(r) => if r.completed then Judge(c, v) else c
    case Nobody => c
  }

  /** The message event likewise; the manager sets the response latch first. */
  function OnMessage(c: Conn, a: Answer, now: nat): Conn {
    var d := c.(isResp := true);
    if d.owner.Held? then Respond(Hold(d, d.owner.request.(awaiting := true)), a, now) else d
  }

  function OnTick(c: Conn, now: nat, timeout: nat): Conn {
    if !c.owner.Held? then c
    else
      var r := c.owner.request;
      if r.response.Some? then Pump(c, now)
      else if r.completed && r.keepAlive && c.sendLen == 0 && now - r.lastActivity >= timeout
      then c.(draining := true) else c
  }

  function Step(c: Conn, e: Event): Conn {
    match e
    case Parsed(v, whole, a, now) =>
      if c.isResp then c  // the latch keeps the next request back
      else
        var d := OnHeaders(c, v);
        if whole then OnMessage(d, a, now) else d
    case Later(a, now) => if c.owner.Held? && c.owner.request.awaiting then Respond(c, a, now) else c
    case Forced => if c.owner.Held? then Hold(c, c.owner.request.(keepAlive := false)) else c
    case Tick(now, timeout) => OnTick(c, now, timeout)
    case Buffer(size, len) => c.(sendSize := size, sendLen := len)
    case Drain => c.(draining := true)
  }

  const FRESH := Conn(Server, false, false, 0, 0, [], [], [])

  function Run(es: seq<Event>): Conn {
    if es == [] then FRESH else Step(Run(es[..|es| - 1]), es[|es| - 1])
  }

  lemma RunSnoc(es: seq<Event>, e: Event)
    ensures Run(es + [e]) == Step(Run(es), e)
  {
    assert (es + [e])[..|es|] == es;
  }

  // -------------------------------------------------------------------------
  // Framing
  // -------------------------------------------------------------------------

  function Pending(c: Conn): bytes {
    if c.owner.Held? && c.owner.request.response.Some? then c.owner.request.response.value else []
  }

  /** Everything queued is the messages issued so far, in order, whole but for what is pending
      of the last; a response in flight or still awaited holds the latch. */
  ghost predicate Framed(c: Conn) {
    && WireAll(c.issued) == c.queued + AsData(Pending(c))
    && (Pending(c) != [] ==> c.issued != [] && |Pending(c)| <= |c.issued[|c.issued| - 1].body|)
    && (c.owner.Held? && c.owner.request.response.Some? ==> c.isResp && !c.owner.request.awaiting)
    && (c.owner.Held? && c.owner.request.awaiting ==> c.isResp)
  }

  lemma WireSnoc(ms: seq<Message>, m: Message)
    ensures WireAll(ms + [m]) == WireAll(ms) + Wire(m)
  {
    assert (ms + [m])[..|ms|] == ms;
  }

  lemma ReplyKeepsFramed(c: Conn, m: Message)
    requires WireAll(c.issued) == c.queued
    ensures var d := Reply(c, m); WireAll(d.issued) == d.queued && d.owner == c.owner && !d.isResp
  {
    WireSnoc(c.issued, m);
    assert Reply(c, m).queued == c.queued + Wire(m);
  }

  lemma PumpKeepsFramed(c: Conn, now: nat)
    requires Framed(c) && c.owner.Held?
    ensures Framed(Pump(c, now))
  {
    var r, space := c.owner.request, Space(c);
    if r.response.Some? && space > 0 {
      var left := r.response.value;
      var n := if |left| < space then |left| else space;
      assert left == left[..n] + left[n..];
      AsDataConcat(left[..n], left[n..]);
      var d := Put(c, AsData(left[..n]), n);
      assert d.queued + AsData(left[n..]) == c.queued + AsData(left);
      if n < space {
        assert left[n..] == [];
        assert d.queued + AsData([]) == d.queued;
      }
    }
  }

  lemma SimpleKeepsFramed(c: Conn, m: Message, s: Request, now: nat)
    requires Framed(c) && Pending(c) == [] && s.response.None? && !s.awaiting
    ensures Framed(Complete(Reply(Hold(c, s), m), now))
  {
    assert c.queued + AsData([]) == c.queued;
    ReplyKeepsFramed(Hold(c, s), m);
    var d := Reply(Hold(c, s), m);
    assert d.queued + AsData([]) == d.queued;
  }

  lemma FullKeepsFramed(c: Conn, m: Message, s: Request, now: nat)
    requires Framed(c) && c.isResp && Pending(c) == [] && s.response == Some(m.body) && !s.awaiting
    ensures Framed(Pump(Begin(Hold(c, s), m), now))
  {
    assert c.queued + AsData([]) == c.queued;
    WireSnoc(c.issued, m);
    var d := Begin(Hold(c, s), m);
    assert d.queued + AsData(m.body) == c.queued + Wire(m);
    assert Pending(d) == m.body;
    PumpKeepsFramed(d, now);
  }

  lemma RespondKeepsFramed(c: Conn, a: Answer, now: nat)
    requires Framed(c) && c.owner.Held? && c.owner.request.awaiting
    ensures Framed(Respond(c, a, now))
  {
    var r := c.owner.request;
    match a
    case Defer =>
    case Simple(code, body, force, width) =>
      var s := r.(keepAlive := r.keepAlive && !force, awaiting := false);
      SimpleKeepsFramed(c, ReplyTo(s, code, |body|, body, width), s, now);
    case Full(code, declared, body, force, width) =>
      var s := r.(keepAlive := r.keepAlive && !force, awaiting := false, response := Some(body));
      FullKeepsFramed(c, ReplyTo(s, code, declared, body, width), s, now);
  }

  lemma JudgeKeepsFramed(c: Conn, v: Verdict)
    requires Framed(c) && !c.isResp
    ensures Framed(Judge(c, v)) && !Judge(c, v).isResp
  {
    assert c.queued + AsData([]) == c.queued;
    match v
    case Accept(e, k) =>
    case Refuse(code, body, width) =>
      var m := RefusalOf(code, body, width);
      ReplyKeepsFramed(c, m);
      assert Reply(c, m).queued + AsData([]) == Reply(c, m).queued;
  }

  lemma StepKeepsFramed(c: Conn, e: Event)
    requires Framed(c)
    ensures Framed(Step(c, e))
  {
    match e
    case Parsed(v, whole, a, now) =>
      if !c.isResp {
        if c.owner.Server? || (c.owner.Held? && c.owner.request.completed) {
          JudgeKeepsFramed(c, v);
        }
        var d := OnHeaders(c, v);
        if whole && d.owner.Held? {
          var w := d.(isResp := true);
          assert Framed(Hold(w, w.owner.request.(awaiting := true)));
          RespondKeepsFramed(Hold(w, w.owner.request.(awaiting := true)), a, now);
        }
      }
    case Later(a, now) =>
      if c.owner.Held? && c.owner.request.awaiting {
        RespondKeepsFramed(c, a, now);
      }
    case Forced =>
    case Tick(now, timeout) =>
      if c.owner.Held? {
        PumpKeepsFramed(c, now);
      }
    case Buffer(_, _) =>
    case Drain =>
  }

  /** Over every run of a connection, kept alive or not. */
  lemma {:induction false} EveryRunIsFramed(es: seq<Event>)
    ensures Framed(Run(es))
  {
    if es == [] {
      assert FRESH.queued + AsData([]) == FRESH.queued;
    } else {
      EveryRunIsFramed(es[..|es| - 1]);
      StepKeepsFramed(Run(es[..|es| - 1]), es[|es| - 1]);
    }
  }

  // -------------------------------------------------------------------------
  // Which messages an event issues
  // -------------------------------------------------------------------------

  /** The next request of the connection, not another look at one being received. */
  predicate TakesNext(c: Conn) {
    !c.isResp && (c.owner.Server? || (c.owner.Held? && c.owner.request.completed))
  }

  predicate Refuses(c: Conn, e: Event) {
    e.Parsed? && e.verdict.Refuse? && TakesNext(c)
  }

  /** The application answers a request, at once or later. */
  predicate Sends(c: Conn, e: Event) {
    match e
    case Parsed(v, whole, a, _) =>
      !c.isResp && whole && !a.Defer? && (c.owner.Held? || (c.owner.Server? && v.Accept?))
    case Later(a, _) => c.owner.Held? && c.owner.request.awaiting && !a.Defer?
    case _ => false
  }

  function AnswerTo(r: Request, a: Answer): Message
    requires !a.Defer?
  {
    var s := r.(keepAlive := r.keepAlive && !a.force);
    ReplyTo(s, a.code, if a.Full? then a.declared else |a.body|, a.body, a.width)
  }

  /** The answer an event gives, by the request that is the handler by then. */
  function Sent(c: Conn, e: Event): Message
    requires Sends(c, e)
  {
    AnswerTo(if e.Parsed? then OnHeaders(c, e.verdict).owner.request else c.owner.request, e.answer)
  }

  function Begun(c: Conn, e: Event): seq<Message> {
    (if Refuses(c, e) then [RefusalOf(e.verdict.code, e.verdict.body, e.verdict.width)] else [])
    + (if Sends(c, e) then [Sent(c, e)] else [])
  }

  lemma PumpIssues(c: Conn, now: nat)
    requires c.owner.Held?
    ensures Pump(c, now).issued == c.issued
  {
  }

  lemma RespondIssues(c: Conn, a: Answer, now: nat)
    requires c.owner.Held?
    ensures Respond(c, a, now).issued == c.issued + if a.Defer? then [] else [AnswerTo(c.owner.request, a)]
  {
    var r := c.owner.request;
    if a.Full? {
      var s := r.(keepAlive := r.keepAlive && !a.force, awaiting := false, response := Some(a.body));
      PumpIssues(Begin(Hold(c, s), ReplyTo(s, a.code, a.declared, a.body, a.width)), now);
    }
  }

  lemma HeadersIssue(c: Conn, v: Verdict)
    requires !c.isResp
    ensures OnHeaders(c, v).issued
         == c.issued + if v.Refuse? && TakesNext(c) then [RefusalOf(v.code, v.body, v.width)] else []
    ensures OnHeaders(c, v).owner.Held? <==> c.owner.Held? || (c.owner.Server? && v.Accept?)
  {
  }

  lemma MessageIssues(c: Conn, a: Answer, now: nat)
    ensures OnMessage(c, a, now).issued
         == c.issued + if c.owner.Held? && !a.Defer? then [AnswerTo(c.owner.request, a)] else []
  {
    if c.owner.Held? {
      RespondIssues(Hold(c.(isResp := true), c.owner.request.(awaiting := true)), a, now);
    }
  }

  lemma ParsedIssues(c: Conn, v: Verdict, whole: bool, a: Answer, now: nat)
    ensures Step(c, Parsed(v, whole, a, now)).issued == c.issued + Begun(c, Parsed(v, whole, a, now))
  {
    if !c.isResp {
      HeadersIssue(c, v);
      if whole {
        MessageIssues(OnHeaders(c, v), a, now);
      }
    }
  }

  /** Nothing issued is ever taken back, and an event issues exactly these. */
  lemma StepIssues(c: Conn, e: Event)
    ensures Step(c, e).issued == c.issued + Begun(c, e)
  {
    match e
    case Parsed(v, whole, a, now) => ParsedIssues(c, v, whole, a, now);
    case Later(a, now) =>
      if c.owner.Held? && c.owner.request.awaiting {
        RespondIssues(c, a, now);
      }
    case Tick(now, timeout) =>
      if c.owner.Held? {
        PumpIssues(c, now);
      }
    case Forced =>
    case Buffer(_, _) =>
    case Drain =>
  }

  // -------------------------------------------------------------------------
  // What a receiver makes of it
  // -------------------------------------------------------------------------

  predicate Truthful(a: Answer) {
    a.Full? ==> a.declared == |a.body|
  }

  /** Every response object that was sent declared the length of what it held. */
  predicate AllTruthful(es: seq<Event>) {
    es == [] ||
    var init, e := es[..|es| - 1], es[|es| - 1];
    AllTruthful(init) && (Sends(Run(init), e) ==> Truthful(e.answer))
  }

  /** Every body is exactly as long as its header declares, exactly if every response object
      sent was truthful: whatever is not one declares the length by itself. */
  lemma {:induction false} BodiesAreAsDeclared(es: seq<Event>)
    ensures AllHonest(Run(es).issued) <==> AllTruthful(es)
  {
    if es != [] {
      var init, e := es[..|es| - 1], es[|es| - 1];
      BodiesAreAsDeclared(init);
      StepIssues(Run(init), e);
      var before, begun := Run(init).issued, Begun(Run(init), e);
      HonestConcat(before, begun);
      assert AllHonest(begun) <==> (Sends(Run(init), e) ==> Truthful(e.answer)) by {
        HonestBegun(Run(init), e);
      }
    }
  }

  lemma HonestConcat(a: seq<Message>, b: seq<Message>)
    ensures AllHonest(a + b) <==> AllHonest(a) && AllHonest(b)
  {
    var ab := a + b;
    assert forall i | 0 <= i < |a| :: ab[i] == a[i];
    assert forall i | 0 <= i < |b| :: b[i] == ab[|a| + i];
  }

  lemma HonestBegun(c: Conn, e: Event)
    ensures AllHonest(Begun(c, e)) <==> (Sends(c, e) ==> Truthful(e.answer))
  {
    var begun := Begun(c, e);
    if Sends(c, e) {
      assert begun[|begun| - 1] == Sent(c, e);
    }
  }

  lemma {:induction false} DecodedIsHonest(q: seq<Octet>)
    ensures AllHonest(Decode(q))
    decreases |q|
  {
    if q != [] && q[0].HeadBlock? {
      var n := q[0].head.contentLength;
      if 1 + n <= |q| && IsData(q[1..1 + n]) {
        DecodedIsHonest(q[1 + n..]);
      }
    }
  }

  /** A receiver that frames by Content-Length recovers from the queued bytes exactly the
      messages issued, headers and bodies, if and only if every response object declared its
      length truthfully; of the last nothing while bytes of it are pending. */
  lemma ReceiverRecoversMessages(es: seq<Event>)
    ensures
      var c := Run(es);
      && (Pending(c) == [] ==> (Decode(c.queued) == c.issued <==> AllTruthful(es)))
      && (Pending(c) != [] && AllTruthful(es) ==>
            c.issued != [] && Decode(c.queued) == c.issued[..|c.issued| - 1])
  {
    EveryRunIsFramed(es);
    BodiesAreAsDeclared(es);
    var c := Run(es);
    DecodedIsHonest(c.queued);
    if AllTruthful(es) {
      FramedDecodes(c);
    }
  }

  lemma FramedDecodes(c: Conn)
    requires Framed(c) && AllHonest(c.issued)
    ensures Pending(c) == [] ==> Decode(c.queued) == c.issued
    ensures Pending(c) != [] ==> c.issued != [] && Decode(c.queued) == c.issued[..|c.issued| - 1]
  {
    var p := Pending(c);
    if p == [] {
      assert c.queued + AsData(p) == c.queued;
      DecodeSnoc(c.issued, []);
      assert WireAll(c.issued) + [] == WireAll(c.issued);
      assert c.issued + [] == c.issued;
    } else {
      var init, m := c.issued[..|c.issued| - 1], c.issued[|c.issued| - 1];
      var n := |Wire(m)| - |p|;
      assert WireAll(c.issued) == WireAll(init) + Wire(m);
      assert c.queued == WireAll(c.issued)[..|c.queued|] == WireAll(init) + Wire(m)[..n];
      DecodeSnoc(init, Wire(m)[..n]);
      DecodePart(m, n);
      assert init + [] == init;
    }
  }

  /** The idle reaper only ever drains between messages: everything issued is queued whole and
      the send buffer is empty. */
  lemma ReaperDrainsBetweenMessages(c: Conn, now: nat, timeout: nat)
    requires Framed(c) && c.owner.Held? && c.owner.request.response.None?
    requires !c.draining && Step(c, Tick(now, timeout)).draining
    ensures WireAll(c.issued) == c.queued && c.sendLen == 0 && c.owner.request.completed
    ensures Step(c, Tick(now, timeout)) == c.(draining := true)
  {
    assert c.queued + AsData([]) == c.queued;
  }

  // -------------------------------------------------------------------------
  // Every response is finished
  // -------------------------------------------------------------------------

  predicate InFlight(c: Conn) {
    c.owner.Held? && c.owner.request.response.Some?
  }

  /** One pump makes the response object an offer of the space there is: what is queued, what
      is left and whether the response is complete are the offer's. */
  lemma PumpIsAnOffer(c: Conn, now: nat)
    requires InFlight(c) && Space(c) > 0
    ensures
      var p, d := R.Offer(R.Pump(Pending(c), [], false), Space(c)), Pump(c, now);
      && |p.chunks| == 1 && d.queued == c.queued + AsData(p.chunks[0])
      && d.owner.Held? && Pending(d) == p.left && (p.finished <==> !InFlight(d))
      && (p.finished ==> d.owner.request.completed && !d.isResp && |d.finished| == |c.finished| + 1)
      && (!p.finished ==> d.isResp == c.isResp && d.finished == c.finished)
  {
  }

  /** A round of the manager: it has written some of its buffer, and polls. */
  function Round(c: Conn, buffer: (nat, nat), now: nat, timeout: nat): Conn {
    Step(Step(c, Buffer(buffer.0, buffer.1)), Tick(now, timeout))
  }

  function Rounds(c: Conn, buffers: seq<(nat, nat)>, now: nat, timeout: nat): Conn
    decreases |buffers|
  {
    if buffers == [] then c else Rounds(Round(c, buffers[0], now, timeout), buffers[1..], now, timeout)
  }

  lemma {:induction false} RoundsAfterCompletion(c: Conn, buffers: seq<(nat, nat)>, now: nat, timeout: nat)
    requires !InFlight(c)
    ensures
      var d := Rounds(c, buffers, now, timeout);
      d.queued == c.queued && d.owner == c.owner && d.isResp == c.isResp && d.finished == c.finished
    decreases |buffers|
  {
    if buffers != [] {
      RoundsAfterCompletion(Round(c, buffers[0], now, timeout), buffers[1..], now, timeout);
    }
  }

  /** What one pump of a response in flight does to the connection. */
  ghost predicate Pumped(c: Conn, d: Conn) {
    && d.owner.Held? && d.queued + AsData(Pending(d)) == c.queued + AsData(Pending(c))
    && (InFlight(d) ==> |Pending(d)| < |Pending(c)| && d.finished == c.finished)
    && (!InFlight(d) ==> d.queued == c.queued + AsData(Pending(c)) && d.owner.request.completed && !d.isResp
                         && |d.finished| == |c.finished| + 1)
  }

  lemma SplitData(q: seq<Octet>, left: bytes, n: nat)
    requires n <= |left|
    ensures q + AsData(left[..n]) + AsData(left[n..]) == q + AsData(left)
    ensures n == |left| ==> left[..n] == left && left[n..] == []
  {
    assert left == left[..n] + left[n..];
    AsDataConcat(left[..n], left[n..]);
  }

  lemma OnePump(c: Conn, now: nat)
    requires InFlight(c) && Space(c) > 0
    ensures Pumped(c, Pump(c, now))
  {
    PumpIsAnOffer(c, now);
    SplitData(c.queued, Pending(c), Min(|Pending(c)|, Space(c)));
  }

  lemma RoundIsAPump(c: Conn, buffer: (nat, nat), now: nat, timeout: nat)
    requires InFlight(c)
    ensures Round(c, buffer, now, timeout) == Pump(c.(sendSize := buffer.0, sendLen := buffer.1), now)
  {
  }

  lemma OneRound(c: Conn, buffer: (nat, nat), now: nat, timeout: nat)
    requires InFlight(c) && (buffer.0 == 0 || buffer.0 > buffer.1)
    ensures Pumped(c, Round(c, buffer, now, timeout))
  {
    RoundIsAPump(c, buffer, now, timeout);
    OnePump(c.(sendSize := buffer.0, sendLen := buffer.1), now);
  }

  /** With any space at all in each round, length + 1 rounds queue what is left of a response,
      complete it once and release the latch. */
  lemma {:induction false} EveryResponseCompletes(c: Conn, buffers: seq<(nat, nat)>, now: nat, timeout: nat)
    requires InFlight(c) && |buffers| > |Pending(c)|
    requires forall i | 0 <= i < |buffers| :: buffers[i].0 == 0 || buffers[i].0 > buffers[i].1
    ensures
      var d := Rounds(c, buffers, now, timeout);
      && d.owner.Held? && !InFlight(d) && d.owner.request.completed && !d.isResp
      && d.queued == c.queued + AsData(Pending(c)) && |d.finished| == |c.finished| + 1
    decreases |buffers|
  {
    OneRound(c, buffers[0], now, timeout);
    var d := Round(c, buffers[0], now, timeout);
    if InFlight(d) {
      EveryResponseCompletes(d, buffers[1..], now, timeout);
    } else {
      RoundsAfterCompletion(d, buffers[1..], now, timeout);
    }
  }
}
