/** What the events of a run alone say of a connection: who handles it and since when, what it
    was told to advertise, when it last completed a response and why it drains.
 */
module HttpHistory {
  import opened Bytes
  import opened HttpConnection
  import opened Wrappers

  // -------------------------------------------------------------------------
  // What one event does to the request
  // -------------------------------------------------------------------------

  /** A new request takes the connection over. */
  predicate Installs(c: Conn, e: Event) {
    e.Parsed? && e.verdict.Accept? && TakesNext(c)
  }

  predicate Completes(c: Conn, e: Event) {
    |Step(c, e).finished| > |c.finished|
  }

  /** The time an event carries. */
  function At(e: Event): nat {
    match e
    case Parsed(_, _, _, now) => now
    case Later(_, now) => now
    case Tick(now, _) => now
    case _ => 0
  }

  /** No response is completed on the way from `c` to `d`. */
  predicate Undone(c: Conn, d: Conn) {
    && c.owner.Held? && d.owner.Held? && d.finished == c.finished && d.draining == c.draining
    && d.owner.request.completed == c.owner.request.completed
    && d.owner.request.lastActivity == c.owner.request.lastActivity
  }

  /** One is, at that time: the latch is released, and a request not to be kept drains. */
  predicate Done(c: Conn, d: Conn, now: nat) {
    && d.owner.Held? && |d.finished| == |c.finished| + 1
    && d.finished == c.finished + [(LastAdvert(d), !d.owner.request.keepAlive)]
    && d.draining == (c.draining || !d.owner.request.keepAlive)
    && d.owner.request.completed && d.owner.request.lastActivity == now
    && !d.isResp && d.owner.request.response.None?
  }

  predicate SameHandler(r: Request, s: Request) {
    r.endpoint == s.endpoint && r.keepAlive == s.keepAlive && r.awaiting == s.awaiting
  }

  lemma PumpStamps(c: Conn, now: nat)
    requires c.owner.Held?
    ensures
      var d := Pump(c, now);
      && d.owner.Held? && SameHandler(c.owner.request, d.owner.request)
      && (if InFlight(c) && Space(c) > |Pending(c)| then Done(c, d, now)
          else Undone(c, d) && d.isResp == c.isResp)
  {
  }

  /** The response object of an answer is written out at once if it fits behind its header. */
  predicate FitsAtOnce(c: Conn, a: Answer) {
    a.Full? && Space(Print(c, [], a.width)) > |a.body|
  }

  lemma SimpleStamps(c: Conn, s: Request, m: Message, now: nat)
    requires s.response.None? && m.head.advert == AdvertOf(s)
    ensures
      var d := Complete(Reply(Hold(c, s), m), now);
      Done(c, d, now) && SameHandler(s, d.owner.request)
  {
    assert Reply(Hold(c, s), m).issued == c.issued + [m];
  }

  lemma FullStamps(c: Conn, s: Request, a: Answer, m: Message, now: nat)
    requires c.owner.Held? && s.completed == c.owner.request.completed
    requires s.lastActivity == c.owner.request.lastActivity
    requires a.Full? && s.response == Some(a.body) && m.head.width == a.width
    ensures
      var d := Pump(Begin(Hold(c, s), m), now);
      && d.owner.Held? && SameHandler(s, d.owner.request)
      && (if FitsAtOnce(c, a) then Done(c, d, now) else Undone(c, d) && InFlight(d))
  {
    var b := Begin(Hold(c, s), m);
    assert Space(b) == Space(Print(c, [], a.width));
    PumpStamps(b, now);
  }

  lemma RespondStamps(c: Conn, a: Answer, now: nat)
    requires c.owner.Held? && !a.Defer? && !InFlight(c)
    ensures
      var d := Respond(c, a, now);
      && d.owner.Held? && !d.owner.request.awaiting
      && d.owner.request.endpoint == c.owner.request.endpoint
      && d.owner.request.keepAlive == (c.owner.request.keepAlive && !a.force)
      && (if a.Simple? || FitsAtOnce(c, a) then Done(c, d, now) else Undone(c, d) && InFlight(d))
  {
    var r := c.owner.request;
    match a
    case Simple(code, body, force, width) =>
      var s := r.(keepAlive := r.keepAlive && !force, awaiting := false);
      SimpleStamps(c, s, ReplyTo(s, code, |body|, body, width), now);
    case Full(code, declared, body, force, width) =>
      var s := r.(keepAlive := r.keepAlive && !force, awaiting := false, response := Some(body));
      FullStamps(c, s, a, ReplyTo(s, code, declared, body, width), now);
  }

  /** The event hands a whole request to the handler there is, or the one that takes over. */
  predicate Reaches(c: Conn, e: Event) {
    e.Parsed? && e.whole && !c.isResp && (c.owner.Held? || (c.owner.Server? && e.verdict.Accept?))
  }

  /** A response is completed by a simple reply, by a response object that fits behind its
      header, and by a pump that finds more space than there is left to write. */
  predicate Finishes(c: Conn, e: Event) {
    || (Sends(c, e)
        && (e.answer.Simple? || FitsAtOnce(if e.Parsed? then OnHeaders(c, e.verdict) else c, e.answer)))
    || (e.Tick? && InFlight(c) && Space(c) > |Pending(c)|)
  }

  /** A poll finds the answered request idle for the timeout and nothing left to send. */
  predicate TimesOut(c: Conn, e: Event) {
    && e.Tick? && c.owner.Held? && !InFlight(c) && c.owner.request.completed && c.owner.request.keepAlive
    && c.sendLen == 0 && e.now - c.owner.request.lastActivity >= e.timeout
  }

  /** Who handles the connection after an event, and what is known of its request. */
  predicate Handles(c: Conn, e: Event, d: Conn) {
    && (d.owner.Held? <==> c.owner.Held? || Installs(c, e))
    && (d.owner.Server? <==> c.owner.Server? && !Installs(c, e))
    && (d.owner.Held? ==>
          var r := d.owner.request;
          && r.endpoint == (if Installs(c, e) then e.verdict.endpoint else c.owner.request.endpoint)
          && r.keepAlive == ((if Installs(c, e) then e.verdict.keepAlive else c.owner.request.keepAlive)
                             && !(Sends(c, e) && e.answer.force) && !e.Forced?)
          && r.awaiting == (if Sends(c, e) then false else if Reaches(c, e) then true
                            else !Installs(c, e) && c.owner.request.awaiting))
  }

  /** Completion stamps the request with the time of the event, and nothing else does. */
  predicate Stamps(c: Conn, e: Event, d: Conn) {
    && (Finishes(c, e) <==> |d.finished| > |c.finished|)
    && (Finishes(c, e) ==> d.owner.Held? && d.owner.request.completed && d.owner.request.lastActivity == At(e))
    && (!Finishes(c, e) && Installs(c, e) ==> d.owner.Held? && !d.owner.request.completed)
    && (!Finishes(c, e) && !Installs(c, e) && c.owner.Held? ==>
          && d.owner.Held? && d.owner.request.completed == c.owner.request.completed
          && d.owner.request.lastActivity == c.owner.request.lastActivity)
  }

  /** A completed response is recorded with what it advertised and whether it drains. */
  predicate Records(c: Conn, e: Event, d: Conn) {
    d.finished == c.finished
                  + if Finishes(c, e) && d.owner.Held? then [(LastAdvert(d), !d.owner.request.keepAlive)] else []
  }

  /** The only reasons to drain: being told to, a refusal, completing a request that is not to
      be kept, and the idle timeout. */
  predicate Drains(c: Conn, e: Event, d: Conn) {
    d.draining <==> || c.draining || e.Drain? || Refuses(c, e) || TimesOut(c, e)
                    || (Finishes(c, e) && d.owner.Held? && !d.owner.request.keepAlive)
  }

  lemma HeadersTell(c: Conn, v: Verdict, a: Answer, now: nat)
    requires Framed(c) && !c.isResp
    ensures
      var e, d := Parsed(v, false, a, now), OnHeaders(c, v);
      && Handles(c, e, d) && Stamps(c, e, d) && Records(c, e, d) && Drains(c, e, d) && !InFlight(d)
  {
  }

  lemma AnsweredTells(c: Conn, v: Verdict, a: Answer, now: nat)
    requires Framed(c) && !c.isResp && OnHeaders(c, v).owner.Held? && !a.Defer?
    ensures
      var e, d := Parsed(v, true, a, now), OnMessage(OnHeaders(c, v), a, now);
      Handles(c, e, d) && Stamps(c, e, d) && Records(c, e, d) && Drains(c, e, d)
  {
    HeadersTell(c, v, a, now);
    var d := OnHeaders(c, v);
    var w := Hold(d.(isResp := true), d.owner.request.(awaiting := true));
    assert FitsAtOnce(w, a) == FitsAtOnce(d, a);
    RespondStamps(w, a, now);
    assert OnMessage(d, a, now) == Respond(w, a, now);
  }

  lemma UnansweredTells(c: Conn, v: Verdict, a: Answer, now: nat)
    requires Framed(c) && !c.isResp && (OnHeaders(c, v).owner.Held? ==> a.Defer?)
    ensures
      var e, d := Parsed(v, true, a, now), OnMessage(OnHeaders(c, v), a, now);
      Handles(c, e, d) && Stamps(c, e, d) && Records(c, e, d) && Drains(c, e, d)
  {
  }

  lemma LaterTells(c: Conn, a: Answer, now: nat)
    requires Framed(c)
    ensures
      var e, d := Later(a, now), Step(c, Later(a, now));
      Handles(c, e, d) && Stamps(c, e, d) && Records(c, e, d) && Drains(c, e, d)
  {
    if c.owner.Held? && c.owner.request.awaiting && !a.Defer? {
      RespondStamps(c, a, now);
    }
  }

  lemma TickTells(c: Conn, now: nat, timeout: nat)
    requires Framed(c)
    ensures
      var e, d := Tick(now, timeout), Step(c, Tick(now, timeout));
      Handles(c, e, d) && Stamps(c, e, d) && Records(c, e, d) && Drains(c, e, d)
  {
    if c.owner.Held? {
      PumpStamps(c, now);
    }
  }

  /** What every event of a run does to who handles the connection, when it was last answered
      and whether it drains. */
  lemma StepTells(c: Conn, e: Event)
    requires Framed(c)
    ensures
      var d := Step(c, e);
      Handles(c, e, d) && Stamps(c, e, d) && Records(c, e, d) && Drains(c, e, d)
  {
    match e
    case Parsed(v, whole, a, now) =>
      if !c.isResp && whole {
        if OnHeaders(c, v).owner.Held? && !a.Defer? {
          AnsweredTells(c, v, a, now);
        } else {
          UnansweredTells(c, v, a, now);
        }
      } else if !c.isResp {
        HeadersTell(c, v, a, now);
      }
    case Later(a, now) => LaterTells(c, a, now);
    case Tick(now, timeout) => TickTells(c, now, timeout);
    case Forced =>
    case Buffer(_, _) =>
    case Drain =>
  }

  /** A response that is completed stamps its request with the time of the event; an event that
      neither completes one nor installs a request leaves the time alone. */
  lemma StepStamps(c: Conn, e: Event)
    requires Framed(c)
    ensures Completes(c, e) <==> Finishes(c, e)
    ensures Completes(c, e) ==> Step(c, e).owner.Held? && Step(c, e).owner.request.lastActivity == At(e)
    ensures !Completes(c, e) && !Installs(c, e) && c.owner.Held? ==>
              && Step(c, e).owner.Held?
              && Step(c, e).owner.request.lastActivity == c.owner.request.lastActivity
  {
    StepTells(c, e);
  }

  // -------------------------------------------------------------------------
  // What a run has said
  // -------------------------------------------------------------------------

  /** When the last response was completed. */
  function LastCompletion(es: seq<Event>): nat {
    if es == [] then 0 else
      var init, e := es[..|es| - 1], es[|es| - 1];
      if Finishes(Run(init), e) then At(e) else LastCompletion(init)
  }

  /** The endpoint that took the last request. */
  function Handler(es: seq<Event>): Option<nat> {
    if es == [] then None else
      var init, e := es[..|es| - 1], es[|es| - 1];
      if Installs(Run(init), e) then Some(e.verdict.endpoint) else Handler(init)
  }

  /** The last request is to keep the connection: it was negotiated so, and neither its answer
      nor forceClose() has said otherwise. */
  function KeptOpen(es: seq<Event>): bool {
    if es == [] then false else
      var init, e := es[..|es| - 1], es[|es| - 1];
      && (if Installs(Run(init), e) then e.verdict.keepAlive else KeptOpen(init))
      && !(Sends(Run(init), e) && e.answer.force) && !e.Forced?
  }

  /** The last request has been handed over and is still to be answered. */
  function Waiting(es: seq<Event>): bool {
    if es == [] then false else
      var init, e := es[..|es| - 1], es[|es| - 1];
      if Sends(Run(init), e) then false
      else if Reaches(Run(init), e) then true
      else !Installs(Run(init), e) && Waiting(init)
  }

  /** A response has been completed since the last request was taken. */
  function Answered(es: seq<Event>): bool {
    if es == [] then false else
      var init, e := es[..|es| - 1], es[|es| - 1];
      Finishes(Run(init), e) || (!Installs(Run(init), e) && Answered(init))
  }

  /** The request that handles a connection is the last that was taken, and all that its fields
      hold is what the run has said. */
  lemma {:induction false} RequestIsAsTold(es: seq<Event>)
    ensures
      var c := Run(es);
      && (c.owner.Held? <==> Handler(es).Some?) && (c.owner.Server? <==> Handler(es).None?)
      && (c.owner.Held? ==>
            var r := c.owner.request;
            && Some(r.endpoint) == Handler(es) && r.keepAlive == KeptOpen(es)
            && r.awaiting == Waiting(es) && r.completed == Answered(es)
            && (r.completed ==> r.lastActivity == LastCompletion(es)))
  {
    if es != [] {
      var init, e := es[..|es| - 1], es[|es| - 1];
      RequestIsAsTold(init);
      EveryRunIsFramed(init);
      StepTells(Run(init), e);
    }
  }

  /** The k-th event is a reason to drain. */
  predicate DrainsAt(es: seq<Event>, k: nat)
    requires k < |es|
  {
    var past, e := es[..k], es[k];
    || e.Drain? || Refuses(Run(past), e)
    || (Finishes(Run(past), e) && !KeptOpen(es[..k + 1]))
    || (e.Tick? && Handler(past).Some? && Answered(past) && !InFlight(Run(past)) && KeptOpen(past)
        && Run(past).sendLen == 0 && e.now - LastCompletion(past) >= e.timeout)
  }

  lemma DrainsSnoc(init: seq<Event>, e: Event)
    ensures (exists k: nat | k < |init| + 1 :: DrainsAt(init + [e], k)) <==>
            (exists k: nat | k < |init| :: DrainsAt(init, k)) || DrainsAt(init + [e], |init|)
  {
    var es := init + [e];
    forall k: nat | k < |init| ensures DrainsAt(es, k) <==> DrainsAt(init, k) {
      assert es[..k] == init[..k] && es[..k + 1] == init[..k + 1] && es[k] == init[k];
    }
  }

  lemma LastDrains(es: seq<Event>)
    requires es != []
    ensures Run(es).draining <==> Run(es[..|es| - 1]).draining || DrainsAt(es, |es| - 1)
  {
    var init, e := es[..|es| - 1], es[|es| - 1];
    RequestIsAsTold(init);
    RequestIsAsTold(es);
    EveryRunIsFramed(init);
    StepTells(Run(init), e);
    assert es[..|es|] == es;
  }

  /** Over every run, a connection drains exactly if it was told to, refused a request,
      completed one that was not to be kept, or timed out idle. */
  lemma {:induction false} DrainsForAReason(es: seq<Event>)
    ensures Run(es).draining <==> exists k: nat | k < |es| :: DrainsAt(es, k)
  {
    if es != [] {
      var init, e := es[..|es| - 1], es[|es| - 1];
      assert es == init + [e];
      DrainsForAReason(init);
      DrainsSnoc(init, e);
      LastDrains(es);
    }
  }

  // -------------------------------------------------------------------------
  // What is sent
  // -------------------------------------------------------------------------

  /** What is said in answer to a request that is kept or not. */
  function Answering(a: Answer, kept: bool): Message
    requires !a.Defer?
  {
    Message(Head(a.code, if a.Full? then a.declared else |a.body|, if kept then KeepAlive else Close, a.width), a.body)
  }

  function Refusing(v: Verdict): Message
    requires v.Refuse?
  {
    Message(Head(v.code, |v.body|, Silent, v.width), v.body)
  }

  /** The messages of a run, each from the verdict or the answer that called for it. */
  function Told(es: seq<Event>): seq<Message> {
    if es == [] then [] else
      var init, e := es[..|es| - 1], es[|es| - 1];
      Told(init)
      + (if Refuses(Run(init), e) then [Refusing(e.verdict)] else [])
      + (if Sends(Run(init), e) then [Answering(e.answer, KeptOpen(es))] else [])
  }

  lemma AnswerIsAsTold(r: Request, a: Answer)
    requires !a.Defer?
    ensures AnswerTo(r, a) == Answering(a, r.keepAlive && !a.force)
  {
  }

  /** Whether the request that is answered by then is kept. */
  lemma KeptBySender(init: seq<Event>, e: Event)
    requires Sends(Run(init), e)
    ensures
      var c := Run(init);
      var r := if e.Parsed? then OnHeaders(c, e.verdict).owner.request else c.owner.request;
      KeptOpen(init + [e]) == (r.keepAlive && !e.answer.force)
  {
    assert (init + [e])[..|init|] == init;
    RequestIsAsTold(init);
  }

  lemma BegunAsTold(init: seq<Event>, e: Event)
    ensures Told(init + [e]) == Told(init) + Begun(Run(init), e)
  {
    assert (init + [e])[..|init|] == init;
    var c := Run(init);
    if Sends(c, e) {
      KeptBySender(init, e);
      AnswerIsAsTold(if e.Parsed? then OnHeaders(c, e.verdict).owner.request else c.owner.request, e.answer);
    }
  }

  /** Every message carries the code, body and declared length it was given, and says of the
      connection what was negotiated. */
  lemma {:induction false} MessagesAreAsTold(es: seq<Event>)
    ensures Run(es).issued == Told(es)
  {
    if es != [] {
      var init, e := es[..|es| - 1], es[|es| - 1];
      assert es == init + [e];
      MessagesAreAsTold(init);
      StepIssues(Run(init), e);
      BegunAsTold(init, e);
    }
  }

  /** While a request has the connection, the latch is held for its answer and nothing else. */
  predicate Latched(c: Conn) {
    c.owner.Held? ==> (c.isResp <==> c.owner.request.awaiting || c.owner.request.response.Some?)
  }

  lemma RespondLatches(c: Conn, a: Answer, now: nat)
    requires c.owner.Held? && c.owner.request.awaiting && c.isResp && !InFlight(c)
    ensures Respond(c, a, now).owner.Held? && Latched(Respond(c, a, now))
  {
    if a.Full? {
      var r := c.owner.request;
      var s := r.(keepAlive := r.keepAlive && !a.force, awaiting := false, response := Some(a.body));
      PumpStamps(Begin(Hold(c, s), ReplyTo(s, a.code, a.declared, a.body, a.width)), now);
    }
  }

  lemma ParsedLatches(c: Conn, v: Verdict, whole: bool, a: Answer, now: nat)
    requires Framed(c) && Latched(c)
    ensures
      var d := Step(c, Parsed(v, whole, a, now));
      Latched(d) && (d.owner.Server? ==> (d.isResp <==> c.isResp || whole))
  {
    if !c.isResp {
      var d := OnHeaders(c, v);
      assert !InFlight(d) && !d.isResp && (d.owner.Held? ==> !d.owner.request.awaiting);
      if whole && d.owner.Held? {
        RespondLatches(Hold(d.(isResp := true), d.owner.request.(awaiting := true)), a, now);
      }
    }
  }

  lemma StepLatches(c: Conn, e: Event)
    requires Framed(c) && Latched(c)
    ensures Latched(Step(c, e))
    ensures Step(c, e).owner.Server? ==> (Step(c, e).isResp <==> c.isResp || (e.Parsed? && e.whole))
  {
    match e
    case Parsed(v, whole, a, now) => ParsedLatches(c, v, whole, a, now);
    case Later(a, now) =>
      if c.owner.Held? && c.owner.request.awaiting {
        RespondLatches(c, a, now);
      }
    case Tick(now, timeout) =>
      if c.owner.Held? {
        PumpStamps(c, now);
      }
    case Forced =>
    case Buffer(_, _) =>
    case Drain =>
  }

  predicate SawWhole(es: seq<Event>) {
    exists i | 0 <= i < |es| :: es[i].Parsed? && es[i].whole
  }

  lemma SawSnoc(init: seq<Event>, e: Event)
    ensures SawWhole(init + [e]) <==> SawWhole(init) || (e.Parsed? && e.whole)
  {
    var es := init + [e];
    assert forall i | 0 <= i < |init| :: es[i] == init[i];
    assert es[|init|] == e;
  }

  lemma {:induction false} RunLatches(es: seq<Event>)
    ensures Latched(Run(es)) && (Run(es).owner.Server? ==> (Run(es).isResp <==> SawWhole(es)))
  {
    if es != [] {
      var init, e := es[..|es| - 1], es[|es| - 1];
      assert es == init + [e];
      RunLatches(init);
      SawSnoc(init, e);
      EveryRunIsFramed(init);
      StepLatches(Run(init), e);
      StepTells(Run(init), e);
    }
  }

  /** The latch is held exactly by a request still to be answered, a response in flight, and
      for good by a whole request that was refused before any was taken. */
  lemma LatchIsExact(es: seq<Event>)
    ensures Run(es).isResp <==> || (Handler(es).Some? && (Waiting(es) || InFlight(Run(es))))
                                || (Handler(es).None? && SawWhole(es))
  {
    RunLatches(es);
    RequestIsAsTold(es);
  }

  // -------------------------------------------------------------------------
  // How the send buffer grows
  // -------------------------------------------------------------------------

  /** The least multiple of the granularity that is enough. */
  lemma RoundUpIsLeast(n: nat, m: nat)
    ensures RoundUp(n) % 512 == 0 && n <= RoundUp(n) < n + 512
    ensures m % 512 == 0 && n <= m ==> RoundUp(n) <= m
  {
    assert RoundUp(n) == (n + 511) / 512 * 512;
  }

  /** One character, written where it and a terminator fit. */
  function PutChar(size: nat, len: nat): nat {
    if len + 2 > size then RoundUp(len + 2) else size
  }

  function PutChars(size: nat, len: nat, n: nat): nat {
    if n == 0 then size else PutChar(PutChars(size, len, n - 1), len + n - 1)
  }

  lemma SameMultiple(n: nat, m: nat)
    requires n <= m <= RoundUp(n)
    ensures RoundUp(m) == RoundUp(n)
  {
    RoundUpIsLeast(n, RoundUp(m));
    RoundUpIsLeast(m, RoundUp(n));
  }

  /** Printing grows the buffer as writing the characters one by one does. */
  lemma {:induction false} PrintingIsCharByChar(size: nat, len: nat, n: nat)
    requires n > 0
    ensures Grown(size, len + n) == PutChars(size, len, n)
  {
    assert PutChars(size, len, 0) == size;
    if n > 1 {
      PrintingIsCharByChar(size, len, n - 1);
      var before := Grown(size, len + n - 1);
      if len + n > size && len + n + 1 <= RoundUp(len + n) {
        SameMultiple(len + n, len + n + 1);
      }
    }
  }

  /** So what is printed grows the buffer, and body bytes take the least size that holds them. */
  lemma SizesAsWritten(c: Conn, octets: seq<Octet>, width: nat)
    requires width > 0
    ensures Print(c, octets, width).sendSize == PutChars(c.sendSize, c.sendLen, width)
    ensures var d := Put(c, octets, width); d.sendSize % 512 == 0 && d.sendLen <= d.sendSize < d.sendLen + 512
  {
    PrintingIsCharByChar(c.sendSize, c.sendLen, width);
    RoundUpIsLeast(c.sendLen + width, 0);
  }

  /** The octets a sequence takes on the wire. */
  function Weight(q: seq<Octet>): nat {
    if q == [] then 0 else
      Weight(q[..|q| - 1]) + match q[|q| - 1] case HeadBlock(h) => h.width case Data(_) => 1
  }

  lemma {:induction false} WeightConcat(a: seq<Octet>, b: seq<Octet>)
    ensures Weight(a + b) == Weight(a) + Weight(b)
  {
    if b == [] {
      assert a + b == a;
    } else {
      WeightConcat(a, b[..|b| - 1]);
      assert (a + b)[..|a + b| - 1] == a + b[..|b| - 1];
    }
  }

  lemma {:induction false} WeightOfData(b: bytes)
    ensures Weight(AsData(b)) == |b|
  {
    if b != [] {
      WeightOfData(b[..|b| - 1]);
      assert AsData(b)[..|b| - 1] == AsData(b[..|b| - 1]);
    }
  }

  /** What a step queues is what the buffer takes up, and it takes it up whole. */
  ghost predicate Fills(c: Conn, d: Conn) {
    && c.queued <= d.queued && d.sendLen == c.sendLen + Weight(d.queued[|c.queued|..])
    && (c.sendLen <= c.sendSize ==> d.sendLen <= d.sendSize)
  }

  lemma FillsThrough(c: Conn, d: Conn, e: Conn)
    requires Fills(c, d) && Fills(d, e)
    ensures Fills(c, e)
  {
    assert e.queued[|c.queued|..] == d.queued[|c.queued|..] + e.queued[|d.queued|..];
    WeightConcat(d.queued[|c.queued|..], e.queued[|d.queued|..]);
  }

  lemma BlockFills(c: Conn, h: Head)
    ensures Fills(c, Print(c, [HeadBlock(h)], h.width))
  {
    assert (c.queued + [HeadBlock(h)])[|c.queued|..] == [HeadBlock(h)];
    assert [HeadBlock(h)][..0] == [];
  }

  lemma DataFills(c: Conn, b: bytes)
    ensures Fills(c, Print(c, AsData(b), |b|)) && Fills(c, Put(c, AsData(b), |b|))
  {
    WeightOfData(b);
    assert (c.queued + AsData(b))[|c.queued|..] == AsData(b);
  }

  lemma ReplyFills(c: Conn, m: Message)
    ensures Fills(c, Reply(c, m))
  {
    var b := Begin(c, m);
    BlockFills(c, m.head);
    DataFills(b, m.body);
    FillsThrough(c, b, Print(b, AsData(m.body), |m.body|));
  }

  lemma PumpFills(c: Conn, now: nat)
    requires c.owner.Held?
    ensures Fills(c, Pump(c, now))
  {
    if InFlight(c) {
      DataFills(c, Pending(c)[..Min(|Pending(c)|, Space(c))]);
    }
    assert c.queued[|c.queued|..] == [];
  }

  lemma FullFills(c: Conn, m: Message, now: nat)
    requires c.owner.Held?
    ensures Fills(c, Pump(Begin(c, m), now))
  {
    var b := Begin(c, m);
    BlockFills(c, m.head);
    PumpFills(b, now);
    FillsThrough(c, b, Pump(b, now));
  }

  lemma RespondFills(c: Conn, a: Answer, now: nat)
    requires c.owner.Held?
    ensures Fills(c, Respond(c, a, now))
  {
    assert c.queued[|c.queued|..] == [];
    var r := c.owner.request;
    match a
    case Defer =>
    case Simple(code, body, force, width) =>
      var s := r.(keepAlive := r.keepAlive && !force, awaiting := false);
      ReplyFills(Hold(c, s), ReplyTo(s, code, |body|, body, width));
    case Full(code, declared, body, force, width) =>
      var s := r.(keepAlive := r.keepAlive && !force, awaiting := false, response := Some(body));
      FullFills(Hold(c, s), ReplyTo(s, code, declared, body, width), now);
  }

  lemma ParsedFills(c: Conn, v: Verdict, whole: bool, a: Answer, now: nat)
    ensures Fills(c, Step(c, Parsed(v, whole, a, now)))
  {
    assert c.queued[|c.queued|..] == [];
    if !c.isResp {
      var d := OnHeaders(c, v);
      if v.Refuse? {
        ReplyFills(c, RefusalOf(v.code, v.body, v.width));
      }
      assert Fills(c, d);
      if whole && d.owner.Held? {
        var w := Hold(d.(isResp := true), d.owner.request.(awaiting := true));
        RespondFills(w, a, now);
        FillsThrough(c, w, Respond(w, a, now));
      }
    }
  }

  /** Nothing queued is taken back, and but for what the manager reports of its writing the
      buffer holds as much more as was queued, and never more than its size. */
  lemma StepFills(c: Conn, e: Event)
    ensures if e.Buffer? then Step(c, e).sendLen == e.len && Step(c, e).sendSize == e.size
                              && Step(c, e).queued == c.queued
            else Fills(c, Step(c, e))
  {
    assert c.queued[|c.queued|..] == [];
    match e
    case Parsed(v, whole, a, now) => ParsedFills(c, v, whole, a, now);
    case Later(a, now) =>
      if c.owner.Held? && c.owner.request.awaiting {
        RespondFills(c, a, now);
      }
    case Tick(now, timeout) =>
      if c.owner.Held? {
        PumpFills(c, now);
      }
    case Forced =>
    case Buffer(_, _) =>
    case Drain =>
  }

  /** Body bytes go into the space that is allocated: pumping takes the buffer no further than
      it is, or than its least size, and from an empty buffer takes 256 octets at most. */
  lemma PumpingNeedsNoGrowth(c: Conn, now: nat)
    requires c.owner.Held? && c.sendLen <= c.sendSize && c.sendSize % 512 == 0
    ensures Pump(c, now).sendSize <= if c.sendSize == 0 then 512 else c.sendSize
    ensures InFlight(c) && c.sendSize == 0 ==> Pump(c, now).sendLen == Min(|Pending(c)|, 256)
    ensures InFlight(c) && c.sendSize > 0 ==>
              Pump(c, now).sendLen == Min(c.sendLen + |Pending(c)|, c.sendSize)
  {
    RoundUpIsLeast(c.sendLen + Min(|Pending(c)|, Space(c)), if c.sendSize == 0 then 512 else c.sendSize);
  }
}
