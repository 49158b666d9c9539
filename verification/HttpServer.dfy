/** The server's connections and request objects in place: who owns whom, when an object is
    deleted, and that each connection runs as its value does.
 */
module HttpServer {
  import opened Bytes
  import opened Responses
  import opened Wrappers

  import H = HttpConnection

  /** What a connection's fn_data points at. */
  datatype Owner = Server | Held(request: Request) | Nobody

  class Connection {
    var owner: Owner
    var isResp: bool
    var isDraining: bool
    var isClosing: bool
    var sendSize: nat
    var sendLen: nat
    ghost var queued: seq<H.Octet>
    ghost var issued: seq<H.Message>
    ghost var finished: seq<(H.Advert, bool)>
    ghost var history: seq<H.Event>

    ghost function View(): H.Conn
      reads this, if owner.Held? then {owner.request} else {}
    {
      H.Conn(match owner
             case Server => H.Server
             case Held(r) => H.Held(r.View())
             case Nobody => H.Nobody,
             isResp, isDraining, sendSize, sendLen, queued, issued, finished)
    }

    constructor ()
      ensures owner == Server && View() == H.FRESH && history == [] && !isClosing
    {
      owner, isResp, isDraining, isClosing, sendSize, sendLen := Server, false, false, false, 0, 0;
      queued, issued, finished, history := [], [], [], [];
    }

    /** `mg_send`: the buffer grows to the next multiple of its granularity. */
    method Put(ghost octets: seq<H.Octet>, width: nat)
      modifies `sendLen, `sendSize, `queued
      ensures View() == H.Put(old(View()), octets, width)
    {
      if width > 0 {
        sendLen := sendLen + width;
        sendSize := H.RoundUp(sendLen);
      }
      queued := queued + octets;
    }

    /** `mg_printf`: the buffer grows only when text and terminator do not fit. */
    method Print(ghost octets: seq<H.Octet>, width: nat)
      modifies `sendLen, `sendSize, `queued
      ensures View() == H.Print(old(View()), octets, width)
    {
      if width > 0 {
        sendLen := sendLen + width;
        if sendSize < sendLen + 1 {
          sendSize := H.RoundUp(sendLen + 1);
        }
      }
      queued := queued + octets;
    }

    method Begin(m: H.Message)
      modifies `sendLen, `sendSize, `queued, `issued
      ensures View() == H.Begin(old(View()), m)
    {
      Print([H.HeadBlock(m.head)], m.head.width);
      issued := issued + [m];
    }

    /** `mg_http_reply` */
    method Reply(m: H.Message)
      modifies `sendLen, `sendSize, `queued, `issued, `isResp
      ensures View() == H.Reply(old(View()), m)
    {
      Begin(m);
      Print(H.AsData(m.body), |m.body|);
      isResp := false;
    }
  }

  class Request {
    var nc: Connection?
    const endpoint: nat
    var keepAlive: bool
    var completed: bool
    var awaiting: bool
    var lastActivity: nat
    var response: Option<bytes>

    ghost function View(): H.Request
      reads this
    {
      H.Request(endpoint, keepAlive, completed, awaiting, lastActivity, response)
    }

    ghost predicate Attached()
      reads this, nc
    {
      nc != null && nc.owner == Held(this)
    }

    constructor (c: Connection, endpoint: nat, keepAlive: bool)
      ensures nc == c && View() == H.NewRequest(endpoint, keepAlive)
    {
      nc := c;
      this.endpoint, this.keepAlive := endpoint, keepAlive;
      completed, awaiting, lastActivity, response := false, false, 0, None;
    }

    method CompleteRequest(now: nat)
      requires Attached()
      modifies this, nc`isResp, nc`isDraining, nc`finished
      ensures Attached() && nc == old(nc)
      ensures nc.View() == H.Complete(old(nc.View()), now)
      ensures completed && lastActivity == now && !nc.isResp
      ensures nc.isDraining == (old(nc.isDraining) || !keepAlive)
    {
      completed := true;
      lastActivity := now;
      nc.isResp := false;
      if !keepAlive {
        nc.isDraining := true;
      }
      nc.finished := nc.finished + [(H.LastAdvert(nc.View()), !keepAlive)];
    }

    method SendBody(now: nat)
      requires Attached()
      modifies this, nc`isResp, nc`isDraining, nc`finished, nc`sendLen, nc`sendSize, nc`queued
      ensures Attached() && nc == old(nc)
      ensures nc.View() == H.Pump(old(nc.View()), now)
    {
      if response.Some? {
        var free := if nc.sendSize == 0 then H.SEND_BUFFER_SIZE
                    else if nc.sendSize > nc.sendLen then nc.sendSize - nc.sendLen else 0;
        if free > 0 {
          var left := response.value;
          var sent := if |left| < free then |left| else free;
          nc.Put(H.AsData(left[..sent]), sent);
          response := Some(left[sent..]);
          if sent < free {
            response := None;
            CompleteRequest(now);
          }
        }
      }
    }

    /** `send(code, contentType, content)` */
    method SendSimple(code: nat, body: bytes, width: nat, now: nat)
      requires Attached()
      modifies this, nc`isResp, nc`isDraining, nc`finished, nc`sendLen, nc`sendSize, nc`queued, nc`issued
      ensures Attached() && nc == old(nc)
      ensures nc.View() == H.Complete(H.Reply(old(nc.View()), H.ReplyTo(old(View()), code, |body|, body, width)), now)
    {
      nc.Reply(H.Message(H.Head(code, |body|, if keepAlive then H.KeepAlive else H.Close, width), body));
      CompleteRequest(now);
    }

    /** `send(response)`, given the length the response object declares and the body it holds. */
    method SendFull(code: nat, declared: nat, body: bytes, width: nat, now: nat)
      requires Attached()
      modifies this, nc`isResp, nc`isDraining, nc`finished, nc`sendLen, nc`sendSize, nc`queued, nc`issued
      ensures Attached() && nc == old(nc)
      ensures nc.View() == H.Pump(H.Begin(H.Hold(old(nc.View()), old(View()).(response := Some(body))),
                                          H.ReplyTo(old(View()), code, declared, body, width)), now)
    {
      nc.Begin(H.Message(H.Head(code, declared, if keepAlive then H.KeepAlive else H.Close, width), body));
      response := Some(body);
      assert nc.View() == H.Begin(H.Hold(old(nc.View()), old(View()).(response := Some(body))),
                                  H.ReplyTo(old(View()), code, declared, body, width));
      SendBody(now);
    }

    /** `send` of a basic response: its header declares its own content length, which is that of
        the body exactly if the response is truthful. */
    method SendBasic(r: ResponseBasic, code: nat, width: nat, now: nat)
      requires Attached() && r.Valid()
      modifies this, nc`isResp, nc`isDraining, nc`finished, nc`sendLen, nc`sendSize, nc`queued, nc`issued
      ensures Attached() && nc == old(nc)
      ensures nc.issued == old(nc.issued) + [H.ReplyTo(old(View()), code, Printed(r.contentLength), r.Left(), width)]
      ensures H.Honest(nc.issued[|old(nc.issued)|]) <==> r.Truthful()
    {
      var declared, body := Printed(r.contentLength), r.memory[r.ptr..r.ptr + r.len];
      H.PumpIssues(H.Begin(H.Hold(nc.View(), View().(response := Some(body))),
                           H.ReplyTo(View(), code, declared, body, width)), now);
      SendFull(code, declared, body, width, now);
      assert nc.issued == nc.View().issued;
    }

    /** `send` of a stream response, likewise. */
    method SendStream(r: ResponseStream, code: nat, width: nat, now: nat)
      requires Attached()
      modifies this, nc`isResp, nc`isDraining, nc`finished, nc`sendLen, nc`sendSize, nc`queued, nc`issued
      ensures Attached() && nc == old(nc)
      ensures nc.issued == old(nc.issued) + [H.ReplyTo(old(View()), code, Printed(r.contentLength), r.content, width)]
      ensures H.Honest(nc.issued[|old(nc.issued)|]) <==> r.Truthful()
    {
      var declared := Printed(r.contentLength);
      H.PumpIssues(H.Begin(H.Hold(nc.View(), View().(response := Some(r.content))),
                           H.ReplyTo(View(), code, declared, r.content, width)), now);
      SendFull(code, declared, r.content, width, now);
      assert nc.issued == nc.View().issued;
    }

    method ForceClose()
      requires Attached()
      modifies this
      ensures Attached() && nc == old(nc)
      ensures nc.View() == H.Hold(old(nc.View()), old(View()).(keepAlive := false))
    {
      keepAlive := false;
    }

    /** The application answers, from the handler or later. */
    method Respond(a: H.Answer, now: nat)
      requires Attached()
      modifies this, nc`isResp, nc`isDraining, nc`finished, nc`sendLen, nc`sendSize, nc`queued, nc`issued
      ensures Attached() && nc == old(nc)
      ensures nc.View() == H.Respond(old(nc.View()), a, now)
    {
      if a.Defer? {
        return;
      }
      if a.force {
        ForceClose();
      }
      awaiting := false;
      ghost var s := old(View()).(keepAlive := old(keepAlive) && !a.force, awaiting := false);
      assert nc.View() == H.Hold(old(nc.View()), s);
      if a.Simple? {
        SendSimple(a.code, a.body, a.width, now);
      } else {
        SendFull(a.code, a.declared, a.body, a.width, now);
      }
    }

    /** The message event: the manager sets the latch, the handler runs. */
    method HandleMessage(a: H.Answer, now: nat)
      requires Attached()
      modifies this, nc`isResp, nc`isDraining, nc`finished, nc`sendLen, nc`sendSize, nc`queued, nc`issued
      ensures Attached() && nc == old(nc)
      ensures nc.View() == H.OnMessage(old(nc.View()), a, now)
    {
      nc.isResp := true;
      awaiting := true;
      Respond(a, now);
    }

    method HandlePoll(now: nat, timeout: nat)
      requires Attached()
      modifies this, nc`isResp, nc`isDraining, nc`finished, nc`sendLen, nc`sendSize, nc`queued
      ensures Attached() && nc == old(nc)
      ensures nc.View() == H.OnTick(old(nc.View()), now, timeout)
    {
      if response.Some? {
        SendBody(now);
        return;
      }
      if completed && keepAlive && 0 == nc.sendLen && now - lastActivity >= timeout {
        nc.isDraining := true;
      }
    }
  }

  /** Something that can happen to the server as a whole. */
  datatype Event = Arrive | On(index: nat, event: H.Event) | Gone(index: nat)

  /** The same as values: for each connection open what has happened on it, and the endpoints
      whose close callbacks have run. */
  datatype World = World(open: seq<seq<H.Event>>, closes: seq<nat>)

  function Farewell(h: seq<H.Event>): seq<nat> {
    if H.Run(h).owner.Held? then [H.Run(h).owner.request.endpoint] else []
  }

  function Advance(w: World, e: Event): World {
    match e
    case Arrive => w.(open := w.open + [[]])
    case On(i, x) => if i < |w.open| then w.(open := w.open[i := w.open[i] + [x]]) else w
    case Gone(i) =>
      if i < |w.open| then World(w.open[..i] + w.open[i + 1..], w.closes + Farewell(w.open[i])) else w
  }

  function History(es: seq<Event>): World {
    if es == [] then World([], []) else Advance(History(es[..|es| - 1]), es[|es| - 1])
  }

  /** The endpoint of the last request accepted on a connection. */
  function LastTaken(h: seq<H.Event>): Option<nat> {
    if h == [] then None
    else
      var e, before := h[|h| - 1], h[..|h| - 1];
      if e.Parsed? && e.verdict.Accept? && H.TakesNext(H.Run(before)) then Some(e.verdict.endpoint)
      else LastTaken(before)
  }

  lemma PumpKeepsHolder(c: H.Conn, now: nat)
    requires c.owner.Held?
    ensures H.Pump(c, now).owner.Held? && H.Pump(c, now).owner.request.endpoint == c.owner.request.endpoint
  {
  }

  lemma RespondKeepsHolder(c: H.Conn, a: H.Answer, now: nat)
    requires c.owner.Held?
    ensures H.Respond(c, a, now).owner.Held?
    ensures H.Respond(c, a, now).owner.request.endpoint == c.owner.request.endpoint
  {
    var r := c.owner.request;
    if a.Full? {
      var s := r.(keepAlive := r.keepAlive && !a.force, awaiting := false, response := Some(a.body));
      PumpKeepsHolder(H.Begin(H.Hold(c, s), H.ReplyTo(s, a.code, a.declared, a.body, a.width)), now);
    }
  }

  lemma StepKeepsHolder(c: H.Conn, e: H.Event)
    requires !c.owner.Nobody?
    ensures
      var d := H.Step(c, e);
      if e.Parsed? && e.verdict.Accept? && H.TakesNext(c)
      then d.owner.Held? && d.owner.request.endpoint == e.verdict.endpoint
      else if c.owner.Server? then d.owner.Server?
      else d.owner.Held? && d.owner.request.endpoint == c.owner.request.endpoint
  {
    match e
    case Parsed(v, whole, a, now) =>
      if !c.isResp && whole {
        var d := H.OnHeaders(c, v).(isResp := true);
        if d.owner.Held? {
          RespondKeepsHolder(H.Hold(d, d.owner.request.(awaiting := true)), a, now);
        }
      }
    case Later(a, now) =>
      if c.owner.Held? {
        RespondKeepsHolder(c, a, now);
      }
    case Tick(now, timeout) =>
      if c.owner.Held? {
        PumpKeepsHolder(c, now);
      }
    case Forced =>
    case Buffer(_, _) =>
    case Drain =>
  }

  /** The close callback of a connection is that of its last accepted request, and runs exactly
      if there was one. */
  lemma {:induction false} ClosesForTheLastRequest(h: seq<H.Event>)
    ensures !H.Run(h).owner.Nobody?
    ensures Farewell(h) == match LastTaken(h) case None => [] case Some(endpoint) => [endpoint]
  {
    if h != [] {
      ClosesForTheLastRequest(h[..|h| - 1]);
      StepKeepsHolder(H.Run(h[..|h| - 1]), h[|h| - 1]);
    }
  }

  class HttpServer {
    var conns: seq<Connection>    // the manager's list
    ghost var live: set<Request>     // request objects allocated and not deleted
    ghost var deleted: set<Request>
    ghost var created: set<Request>  // every request object there ever was
    ghost var closes: seq<nat>       // endpoints whose close callback has run

    /** Ownership: a live request holds the one connection it points at, and whatever a
        connection is held by is live. */
    ghost predicate Owned()
      reads this, conns, live
    {
      && live !! deleted && created == live + deleted
      && (forall i, j | 0 <= i < j < |conns| :: conns[i] != conns[j])
      && (forall r | r in live :: r.nc != null && r.nc in conns && r.nc.owner == Held(r))
      && (forall c | c in conns :: !c.owner.Nobody?)
      && (forall c | c in conns && c.owner.Held? :: c.owner.request in live && c.owner.request.nc == c)
    }

    /** Every connection is where its own history takes it. */
    ghost predicate Valid()
      reads this, conns, live
    {
      && Owned()
      && forall c | c in conns :: c.View() == H.Run(c.history)
    }

    ghost predicate Shows(w: World)
      reads this, conns
    {
      && closes == w.closes
      && |conns| == |w.open|
      && forall i | 0 <= i < |conns| :: conns[i].history == w.open[i]
    }

    /** So on every connection, whatever happens on the others, what has been queued are whole
        messages but for the pending tail of the last, and a receiver recovers them. */
    lemma ConnectionsStayFramed(c: Connection)
      requires Valid() && c in conns
      ensures H.Framed(c.View())
      ensures H.Pending(c.View()) == [] ==> (H.Decode(c.queued) == c.issued <==> H.AllTruthful(c.history))
    {
      H.EveryRunIsFramed(c.history);
      H.ReceiverRecoversMessages(c.history);
    }

    constructor ()
      ensures Valid() && conns == [] && created == {} && closes == []
    {
      conns, live, deleted, created, closes := [], {}, {}, {}, [];
    }

    /** The destructor: it lets go of the connection only if the connection is still its own. */
    method Delete(r: Request)
      requires r in live && r !in deleted
      modifies `live, `deleted, r, r.nc
      ensures live == old(live) - {r} && deleted == old(deleted) + {r}
      ensures old(r.nc) != null && old(r.nc.owner) != Held(r) ==> unchanged(old(r.nc))
      ensures old(r.nc) != null && old(r.nc.owner) == Held(r) ==> old(r.nc).owner == Nobody && old(r.nc).isClosing
    {
      r.response := None;
      if r.nc != null && r.nc.owner == Held(r) {
        r.nc.owner := Nobody;
        r.nc.isClosing := true;
      }
      r.nc := null;
      live := live - {r};
      deleted := deleted + {r};
    }

    ghost function Holder(c: Connection): set<Request>
      reads c
    {
      if c.owner.Held? then {c.owner.request} else {}
    }

    /** The server matches the headers to an endpoint. */
    method Judge(c: Connection, v: H.Verdict)
      modifies `live, `created, c
      ensures conns == old(conns)
      ensures c.history == old(c.history) && c.isClosing == old(c.isClosing)
      ensures c.View() == H.Judge(old(c.View()), v)
      ensures v.Refuse? ==> c.owner == old(c.owner) && live == old(live) && created == old(created)
      ensures v.Accept? ==> c.owner.Held? && fresh(c.owner.request) && c.owner.request.nc == c
      ensures v.Accept? ==> live == old(live) + {c.owner.request} && created == old(created) + {c.owner.request}
    {
      match v
      case Accept(endpoint, keepAlive) =>
        var r := new Request(c, endpoint, keepAlive);
        c.owner := Held(r);
        live, created := live + {r}, created + {r};
      case Refuse(code, body, width) =>
        c.Reply(H.RefusalOf(code, body, width));
        c.isDraining := true;
    }

    /** A fresh request holds the connection, and the one that held it, if any, is gone. */
    twostate lemma OwnershipPassesOn(c: Connection, new r: Request)
      requires old(Owned()) && c in conns && conns == old(conns)
      requires fresh(r) && c.owner == Held(r) && r.nc == c
      requires created == old(created) + {r} && deleted == old(deleted) + old(Holder(c))
      requires live == old(live) - old(Holder(c)) + {r}
      requires forall d | d in conns && d != c :: d.owner == old(d.owner)
      requires forall q | q in live && q != r :: q.nc == old(q.nc)
      ensures Owned()
    {
    }

    /** The headers event, to the server or to the request that holds the connection. */
    method OnHeaders(c: Connection, v: H.Verdict)
      requires Owned() && c in conns
      modifies `live, `deleted, `created, c, Holder(c)
      ensures Owned() && conns == old(conns) && c.history == old(c.history)
      ensures c.View() == H.OnHeaders(old(c.View()), v)
      ensures fresh(Holder(c) - old(Holder(c)))
      ensures old(created) <= created && fresh(live - old(live))
    {
      match c.owner
      case Server =>
        Judge(c, v);
        if v.Accept? {
          OwnershipPassesOn(c, c.owner.request);
        } else {
          OwnershipStays();
        }
      case Held(r) =>
        if !r.completed {
          return;
        }
        Judge(c, v);
        if c.owner != Held(r) {
          Delete(r);
          OwnershipPassesOn(c, c.owner.request);
        } else {
          OwnershipStays();
        }
      case Nobody =>
    }

    /** Ownership is about who holds whom and nothing else. */
    twostate lemma OwnershipStays()
      requires old(Owned())
      requires conns == old(conns) && live == old(live) && deleted == old(deleted) && created == old(created)
      requires forall c | c in conns :: c.owner == old(c.owner)
      requires forall r | r in live :: r.nc == old(r.nc)
      ensures Owned()
    {
    }

    method OnMessage(c: Connection, a: H.Answer, now: nat)
      requires Owned() && c in conns
      modifies c, Holder(c)
      ensures Owned() && c.history == old(c.history) && c.owner == old(c.owner)
      ensures c.View() == H.OnMessage(old(c.View()), a, now)
    {
      MessageOn(c, a, now);
      OwnershipStays();
    }

    method MessageOn(c: Connection, a: H.Answer, now: nat)
      requires c.owner.Held? ==> c.owner.request.nc == c
      modifies c, Holder(c)
      ensures c.history == old(c.history) && c.owner == old(c.owner)
      ensures c.owner.Held? ==> c.owner.request.nc == c
      ensures c.View() == H.OnMessage(old(c.View()), a, now)
    {
      if c.owner.Held? {
        c.owner.request.HandleMessage(a, now);
      } else {
        c.isResp := true;
      }
    }

    /** A headers event and, if the body is all there, the message event. */
    method OnParsed(c: Connection, v: H.Verdict, whole: bool, a: H.Answer, now: nat)
      requires Owned() && c in conns
      modifies `live, `deleted, `created, c, Holder(c)
      ensures Owned() && conns == old(conns) && c.history == old(c.history)
      ensures c.View() == H.Step(old(c.View()), H.Parsed(v, whole, a, now))
      ensures fresh(Holder(c) - old(Holder(c)))
      ensures old(created) <= created && fresh(live - old(live))
    {
      if !c.isResp {
        OnHeaders(c, v);
        if whole {
          OnMessage(c, a, now);
        }
      }
    }

    /** Whatever else can happen on a connection touches only it and the request it is held by. */
    method OnOther(c: Connection, e: H.Event)
      requires (c.owner.Held? ==> c.owner.request.nc == c) && !e.Parsed?
      modifies c, Holder(c)
      ensures c.history == old(c.history) && c.owner == old(c.owner)
      ensures c.owner.Held? ==> c.owner.request.nc == c
      ensures c.View() == H.Step(old(c.View()), e)
    {
      match e
      case Later(a, now) =>
        if c.owner.Held? && c.owner.request.awaiting {
          c.owner.request.Respond(a, now);
        }
      case Forced =>
        if c.owner.Held? {
          c.owner.request.ForceClose();
        }
      case Tick(now, timeout) =>
        if c.owner.Held? {
          c.owner.request.HandlePoll(now, timeout);
        }
      case Buffer(size, len) =>
        c.sendSize, c.sendLen := size, len;
      case Drain =>
        c.isDraining := true;
    }

    /** One event on one connection: it takes the step its value takes, no other connection
        changes, and no request object is lost or deleted twice. */
    method Handle(i: nat, e: H.Event)
      requires Valid() && i < |conns|
      modifies `live, `deleted, `created, conns[i], Holder(conns[i])
      ensures Valid() && conns == old(conns)
      ensures conns[i].View() == H.Step(old(conns[i].View()), e)
      ensures conns[i].history == old(conns[i].history) + [e]
      ensures forall c | c in conns && c != conns[i] :: c.View() == old(c.View()) && c.history == old(c.history)
      ensures old(created) <= created && fresh(live - old(live))
    {
      var c := conns[i];
      H.RunSnoc(c.history, e);
      Dispatch(c, e);
      Note(c, e);
    }

    method Dispatch(c: Connection, e: H.Event)
      requires Owned() && c in conns
      modifies `live, `deleted, `created, c, Holder(c)
      ensures Owned() && conns == old(conns) && c.history == old(c.history)
      ensures c.View() == H.Step(old(c.View()), e)
      ensures forall d | d in conns && d != c :: d.View() == old(d.View()) && d.history == old(d.history)
      ensures old(created) <= created && fresh(live - old(live))
    {
      assert forall d | d in conns && d != c :: Holder(d) !! Holder(c);
      if e.Parsed? {
        OnParsed(c, e.verdict, e.whole, e.answer, e.now);
      } else {
        OnOther(c, e);
        OwnershipStays();
      }
    }

    ghost method Note(c: Connection, e: H.Event)
      requires Owned()
      modifies c`history
      ensures Owned() && c.history == old(c.history) + [e]
      ensures forall d | d in conns :: d.View() == old(d.View())
      ensures forall d | d in conns && d != c :: d.history == old(d.history)
    {
      c.history := c.history + [e];
    }

    /** A client is accepted: the listener's handler, this server, holds the connection. */
    method Accept()
      requires Valid()
      modifies `conns
      ensures Valid()
      ensures |conns| == |old(conns)| + 1 && conns[..|old(conns)|] == old(conns)
      ensures fresh(conns[|old(conns)|]) && conns[|old(conns)|].history == []
    {
      var c := new Connection();
      conns := conns + [c];
    }

    /** The manager closes a connection: the request that holds it tells its endpoint, lets go
        of the connection, and deletes itself. */
    method Close(i: nat)
      requires Valid() && i < |conns|
      modifies `conns, `live, `deleted, `closes, conns[i], Holder(conns[i])
      ensures Valid()
      ensures conns == old(conns[..i] + conns[i + 1..])
      ensures closes == old(closes) + Farewell(old(conns[i].history))
      ensures live == old(live - Holder(conns[i])) && deleted == old(deleted + Holder(conns[i]))
      ensures forall c | c in conns :: c.View() == old(c.View()) && c.history == old(c.history)
    {
      Release(i);
    }

    lemma OthersRemain(all: seq<Connection>, i: nat)
      requires i < |all| && forall a, b | 0 <= a < b < |all| :: all[a] != all[b]
      ensures forall d :: d in all[..i] + all[i + 1..] <==> d in all && d != all[i]
      ensures var rest := all[..i] + all[i + 1..]; forall a, b | 0 <= a < b < |rest| :: rest[a] != rest[b]
    {
      var rest := all[..i] + all[i + 1..];
      forall d | d in all && d != all[i] ensures d in rest {
        var k :| 0 <= k < |all| && all[k] == d;
        assert rest[if k < i then k else k - 1] == d;
      }
    }

    /** What is left is owned as before when a connection and its holder are gone. */
    twostate lemma OwnershipOfTheRest(c: Connection)
      requires old(Owned()) && c in old(conns)
      requires forall d :: d in conns <==> d in old(conns) && d != c
      requires forall a, b | 0 <= a < b < |conns| :: conns[a] != conns[b]
      requires live == old(live) - old(Holder(c)) && deleted == old(deleted) + old(Holder(c)) && created == old(created)
      requires forall d | d in conns :: d.owner == old(d.owner)
      requires forall r | r in live :: r.nc == old(r.nc)
      ensures Owned()
    {
    }

    method Release(i: nat)
      requires Owned() && i < |conns|
      modifies `conns, `live, `deleted, `closes, conns[i], Holder(conns[i])
      ensures Owned()
      ensures conns == old(conns[..i] + conns[i + 1..])
      ensures closes == old(closes + if conns[i].owner.Held? then [conns[i].owner.request.endpoint] else [])
      ensures live == old(live - Holder(conns[i])) && deleted == old(deleted + Holder(conns[i]))
      ensures forall c | c in conns :: c.View() == old(c.View()) && c.history == old(c.history)
    {
      var c := conns[i];
      assert forall d | d in conns && d != c :: Holder(d) !! Holder(c);
      OthersRemain(conns, i);
      conns := conns[..i] + conns[i + 1..];
      LetGo(c);
      OwnershipOfTheRest(c);
    }

    /** `handleClose` */
    method LetGo(c: Connection)
      requires c.owner.Held? ==> c.owner.request in live && c.owner.request !in deleted && c.owner.request.nc == c
      modifies `live, `deleted, `closes, c, Holder(c)
      ensures closes == old(closes + if c.owner.Held? then [c.owner.request.endpoint] else [])
      ensures live == old(live - Holder(c)) && deleted == old(deleted + Holder(c))
    {
      if c.owner.Held? {
        var r := c.owner.request;
        r.nc := null;
        closes := closes + [r.endpoint];
        c.owner := Nobody;
        Delete(r);
      }
    }

    method ServeOn(i: nat, x: H.Event, ghost w: World)
      requires Valid() && Shows(w)
      modifies this, conns, live
      ensures Valid() && Shows(Advance(w, On(i, x)))
      ensures conns == old(conns) && fresh(live - old(live))
    {
      if i < |conns| {
        assert conns[i] in conns && Holder(conns[i]) <= live;
        Handle(i, x);
      }
    }

    method ServeGone(i: nat, ghost w: World)
      requires Valid() && Shows(w)
      modifies this, conns, live
      ensures Valid() && Shows(Advance(w, Gone(i)))
      ensures (forall c | c in conns :: c in old(conns)) && live <= old(live)
    {
      if i < |conns| {
        assert conns[i] in conns && Holder(conns[i]) <= live;
        Close(i);
      }
    }

    method Serve(e: Event, ghost w: World)
      requires Valid() && Shows(w)
      modifies this, conns, live
      ensures Valid() && Shows(Advance(w, e))
      ensures fresh(live - old(live))
      ensures forall i | 0 <= i < |conns| :: conns[i] in old(conns) || fresh(conns[i])
    {
      match e
      case Arrive => Accept();
      case On(i, x) => ServeOn(i, x, w);
      case Gone(i) => ServeGone(i, w);
    }

    /** Any sequence of events on any number of connections. Nothing is assumed of them: each
        connection still runs as it would alone, what is live is what holds a connection, all
        else that was ever created has been deleted, and the close callbacks are those the
        histories call for. */
    method RunAll(events: seq<Event>)
      requires Valid() && conns == [] && created == {} && closes == []
      modifies this
      ensures Valid() && Shows(History(events))
      ensures created == live + deleted && live !! deleted
      ensures live == set c | c in conns && c.owner.Held? :: c.owner.request
      ensures conns == [] ==> created == deleted
    {
      var k := 0;
      while k < |events|
        invariant 0 <= k <= |events|
        invariant Valid() && Shows(History(events[..k]))
        invariant fresh(conns)
        invariant forall r | r in live :: fresh(r)
      {
        assert events[..k + 1][..k] == events[..k];
        Serve(events[k], History(events[..k]));
        k := k + 1;
      }
      assert events[..|events|] == events;
    }
  }
}
