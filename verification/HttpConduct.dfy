/** What a connection's responses say about it and whether that comes true, and which handler
    its requests reach.
 */
module HttpConduct {
  import opened Bytes
  import opened HttpConnection
  import opened HttpHistory
  import opened Wrappers

  // -------------------------------------------------------------------------
  // What a response advertises, and what becomes of the connection
  // -------------------------------------------------------------------------

  /** A completed response advertised "close" exactly if its completion drained. */
  predicate KeepsItsWord(f: (Advert, bool)) {
    f.0 == Close <==> f.1
  }

  /** forceClose() on a response whose header has gone out as keep-alive. */
  predicate TooLate(c: Conn, e: Event) {
    e.Forced? && InFlight(c) && c.owner.request.keepAlive
  }

  /** The response in flight has promised to keep the connection, and will drain it. */
  predicate Misleads(c: Conn) {
    InFlight(c) && LastAdvert(c) == KeepAlive && !c.owner.request.keepAlive
  }

  /** What the response in flight has said, it was about to do when it said it. */
  predicate Tells(c: Conn) {
    InFlight(c) ==> LastAdvert(c) == (if c.owner.request.keepAlive || Misleads(c) then KeepAlive else Close)
  }

  /** At most one response completes, and none is in flight then. */
  predicate Extends(before: seq<(Advert, bool)>, after: seq<(Advert, bool)>) {
    after == before || (|after| == |before| + 1 && after[..|before|] == before)
  }

  /** How a step that completes a response or not carries on from `c`. */
  ghost predicate Carries(c: Conn, late: bool, d: Conn) {
    && Tells(d) && Extends(c.finished, d.finished)
    && (|d.finished| == |c.finished| ==> (Misleads(d) <==> Misleads(c) || late))
    && (|d.finished| > |c.finished| ==>
          && !InFlight(d) && !late
          && var f := d.finished[|c.finished|];
          if Misleads(c) then f == (KeepAlive, true) else KeepsItsWord(f))
  }

  lemma PumpCarries(c: Conn, now: nat)
    requires c.owner.Held? && Tells(c)
    ensures Carries(c, false, Pump(c, now))
  {
    var r, space := c.owner.request, Space(c);
    if r.response.Some? && space > 0 && |r.response.value| < space {
      var d := Hold(Put(c, AsData(r.response.value[..|r.response.value|]), |r.response.value|), r.(response := None));
      assert LastAdvert(d) == LastAdvert(c);
      assert d.finished == c.finished;
    }
  }

  lemma SimpleCarries(c: Conn, s: Request, m: Message, now: nat)
    requires !InFlight(c) && m.head.advert == AdvertOf(s) && s.response.None?
    ensures Carries(c, false, Complete(Reply(Hold(c, s), m), now))
  {
    var d := Reply(Hold(c, s), m);
    assert d.finished == c.finished && LastAdvert(d) == m.head.advert;
  }

  lemma FullCarries(c: Conn, s: Request, m: Message, now: nat)
    requires !InFlight(c) && m.head.advert == AdvertOf(s)
    ensures Carries(c, false, Pump(Begin(Hold(c, s), m), now))
  {
    var d := Begin(Hold(c, s), m);
    assert d.finished == c.finished && LastAdvert(d) == m.head.advert;
    PumpCarries(d, now);
  }

  lemma RespondCarries(c: Conn, a: Answer, now: nat)
    requires c.owner.Held? && !InFlight(c)
    ensures Carries(c, false, Respond(c, a, now))
  {
    var r := c.owner.request;
    match a
    case Defer =>
    case Simple(code, body, force, width) =>
      var s := r.(keepAlive := r.keepAlive && !force, awaiting := false);
      SimpleCarries(c, s, ReplyTo(s, code, |body|, body, width), now);
    case Full(code, declared, body, force, width) =>
      var s := r.(keepAlive := r.keepAlive && !force, awaiting := false, response := Some(body));
      FullCarries(c, s, ReplyTo(s, code, declared, body, width), now);
  }

  lemma ParsedCarries(c: Conn, v: Verdict, whole: bool, a: Answer, now: nat)
    requires Framed(c) && Tells(c)
    ensures Carries(c, false, Step(c, Parsed(v, whole, a, now)))
  {
    if !c.isResp {
      var d := OnHeaders(c, v);
      assert !InFlight(d) && d.finished == c.finished;
      if whole && d.owner.Held? {
        RespondCarries(Hold(d.(isResp := true), d.owner.request.(awaiting := true)), a, now);
      }
    }
  }

  lemma StepCarries(c: Conn, e: Event)
    requires Framed(c) && Tells(c)
    ensures Carries(c, TooLate(c, e), Step(c, e))
  {
    match e
    case Parsed(v, whole, a, now) => ParsedCarries(c, v, whole, a, now);
    case Later(a, now) =>
      if c.owner.Held? && c.owner.request.awaiting {
        RespondCarries(c, a, now);
      }
    case Tick(now, timeout) =>
      if c.owner.Held? {
        PumpCarries(c, now);
      }
    case Forced =>
    case Buffer(_, _) =>
    case Drain =>
  }

  predicate ComesTooLate(es: seq<Event>, k: nat, n: nat)
    requires k < |es|
  {
    TooLate(Run(es[..k]), es[k]) && |Run(es[..k]).finished| == n
  }

  /** forceClose() came too late for the response that was the n-th to complete, or will be. */
  predicate ForcedTooLate(es: seq<Event>, n: nat) {
    exists k: nat | k < |es| :: ComesTooLate(es, k, n)
  }

  lemma ForcedSnoc(init: seq<Event>, e: Event, n: nat)
    ensures ForcedTooLate(init + [e], n) <==>
            ForcedTooLate(init, n) || (TooLate(Run(init), e) && |Run(init).finished| == n)
  {
    var es := init + [e];
    assert es[..|init|] == init;
    assert forall k: nat | k < |init| :: es[..k] == init[..k] && es[k] == init[k];
    assert forall k: nat | k < |init| :: ComesTooLate(es, k, n) <==> ComesTooLate(init, k, n);
    assert ComesTooLate(es, |init|, n) <==> TooLate(Run(init), e) && |Run(init).finished| == n;
  }

  /** The n-th response to complete kept its word exactly if forceClose() did not come too late
      for it; if it did, the response promised to keep the connection and drained it. */
  predicate Judged(es: seq<Event>, c: Conn, n: nat)
    requires n < |c.finished|
  {
    && (KeepsItsWord(c.finished[n]) <==> !ForcedTooLate(es, n))
    && (ForcedTooLate(es, n) ==> c.finished[n] == (KeepAlive, true))
  }

  ghost predicate Accounted(es: seq<Event>, c: Conn) {
    && Tells(c) && (Misleads(c) <==> ForcedTooLate(es, |c.finished|))
    && (forall n: nat | n > |c.finished| :: !ForcedTooLate(es, n))
    && (forall n: nat | n < |c.finished| :: Judged(es, c, n))
  }

  lemma JudgedBefore(init: seq<Event>, e: Event, c: Conn, d: Conn, n: nat)
    requires c == Run(init) && n < |c.finished| && Judged(init, c, n)
    requires Extends(c.finished, d.finished)
    ensures n < |d.finished| && Judged(init + [e], d, n)
  {
    ForcedSnoc(init, e, n);
    assert d.finished[n] == d.finished[..|c.finished|][n] == c.finished[n];
  }

  lemma JudgedNow(init: seq<Event>, e: Event, c: Conn, d: Conn)
    requires c == Run(init) && (Misleads(c) <==> ForcedTooLate(init, |c.finished|))
    requires Carries(c, TooLate(c, e), d) && |d.finished| > |c.finished|
    ensures Judged(init + [e], d, |c.finished|)
  {
    ForcedSnoc(init, e, |c.finished|);
  }

  lemma JudgedStill(init: seq<Event>, e: Event, c: Conn, d: Conn)
    requires c == Run(init) && Extends(c.finished, d.finished)
    requires forall n: nat | n < |c.finished| :: Judged(init, c, n)
    ensures forall n: nat | n < |c.finished| :: n < |d.finished| && Judged(init + [e], d, n)
  {
    forall n: nat | n < |c.finished| ensures n < |d.finished| && Judged(init + [e], d, n) {
      JudgedBefore(init, e, c, d, n);
    }
  }

  lemma NoneAhead(init: seq<Event>, e: Event, c: Conn, d: Conn)
    requires Accounted(init, c) && Carries(c, TooLate(c, e), d) && c == Run(init)
    ensures Misleads(d) <==> ForcedTooLate(init + [e], |d.finished|)
    ensures forall n: nat | n > |d.finished| :: !ForcedTooLate(init + [e], n)
  {
    forall n: nat | n > |d.finished| ensures !ForcedTooLate(init + [e], n) {
      ForcedSnoc(init, e, n);
    }
    ForcedSnoc(init, e, |d.finished|);
  }

  lemma JudgedAll(es: seq<Event>, d: Conn, n: nat)
    requires forall k: nat | k < n :: k < |d.finished| && Judged(es, d, k)
    requires |d.finished| == n || (|d.finished| == n + 1 && Judged(es, d, n))
    ensures forall k: nat | k < |d.finished| :: Judged(es, d, k)
  {
  }

  lemma AccountStep(init: seq<Event>, e: Event, c: Conn, d: Conn)
    requires Accounted(init, c) && Carries(c, TooLate(c, e), d) && c == Run(init)
    ensures Accounted(init + [e], d)
  {
    NoneAhead(init, e, c, d);
    JudgedStill(init, e, c, d);
    if |d.finished| > |c.finished| {
      JudgedNow(init, e, c, d);
    }
    JudgedAll(init + [e], d, |c.finished|);
  }

  /** Over every run. */
  lemma {:induction false} AdvertsAreKept(es: seq<Event>)
    ensures Accounted(es, Run(es))
  {
    if es != [] {
      var init, e := es[..|es| - 1], es[|es| - 1];
      AdvertsAreKept(init);
      EveryRunIsFramed(init);
      StepCarries(Run(init), e);
      AccountStep(init, e, Run(init), Run(es));
      assert es == init + [e];
    }
  }

  /** So all of them keep their word exactly if forceClose() came too late for none of them. */
  lemma EveryAdvertIsKept(es: seq<Event>)
    ensures
      var finished := Run(es).finished;
      (forall n: nat | n < |finished| :: KeepsItsWord(finished[n])) <==>
      (forall n: nat | n < |finished| :: !ForcedTooLate(es, n))
  {
    AdvertsAreKept(es);
    AllOrSome(es, Run(es));
  }

  lemma AllOrSome(es: seq<Event>, c: Conn)
    requires Accounted(es, c)
    ensures
      (forall n: nat | n < |c.finished| :: KeepsItsWord(c.finished[n])) <==>
      (forall n: nat | n < |c.finished| :: !ForcedTooLate(es, n))
  {
    forall n: nat | n < |c.finished| ensures KeepsItsWord(c.finished[n]) <==> !ForcedTooLate(es, n) {
      assert Judged(es, c, n);
    }
    if n: nat :| n < |c.finished| && ForcedTooLate(es, n) {
      assert !KeepsItsWord(c.finished[n]);
    }
  }

  // -------------------------------------------------------------------------
  // What follows a response that advertised "close"
  // -------------------------------------------------------------------------

  predicate SaidClose(ms: seq<Message>) {
    exists i | 0 <= i < |ms| :: ms[i].head.advert == Close
  }

  /** Some message was issued after one that advertised "close". */
  predicate FollowsClose(ms: seq<Message>) {
    exists i | 0 <= i < |ms| - 1 :: ms[i].head.advert == Close
  }

  predicate Issuing(c: Conn, e: Event) {
    Refuses(c, e) || Sends(c, e)
  }

  /** A request is answered or refused on a connection that has advertised "close". */
  predicate GoesOnAfterClose(es: seq<Event>, k: nat)
    requires k < |es|
  {
    SaidClose(Run(es[..k]).issued) && Issuing(Run(es[..k]), es[k])
  }

  lemma FollowsConcat(a: seq<Message>, b: seq<Message>)
    requires !FollowsClose(b)
    ensures FollowsClose(a + b) <==> FollowsClose(a) || (SaidClose(a) && b != [])
  {
    var all := a + b;
    assert forall i | |a| <= i < |all| - 1 :: all[i] == b[i - |a|] && all[i].head.advert != Close;
    if FollowsClose(all) {
      var i :| 0 <= i < |all| - 1 && all[i].head.advert == Close;
      assert a[i].head.advert == Close;
    }
    if FollowsClose(a) || (SaidClose(a) && b != []) {
      var i :| 0 <= i < |a| && a[i].head.advert == Close && (i < |a| - 1 || b != []);
      assert all[i].head.advert == Close;
    }
  }

  lemma FollowsAfter(before: seq<Message>, c: Conn, e: Event)
    ensures FollowsClose(before + Begun(c, e)) <==> FollowsClose(before) || (SaidClose(before) && Issuing(c, e))
  {
    var begun := Begun(c, e);
    assert |begun| == 2 ==> begun[0].head.advert == Silent;
    FollowsConcat(before, begun);
  }

  lemma GoesOnSnoc(init: seq<Event>, e: Event)
    ensures (exists k: nat | k < |init| + 1 :: GoesOnAfterClose(init + [e], k)) <==>
            (exists k: nat | k < |init| :: GoesOnAfterClose(init, k))
            || (SaidClose(Run(init).issued) && Issuing(Run(init), e))
  {
    var es := init + [e];
    assert es[..|init|] == init;
    assert forall k: nat | k < |init| :: es[..k] == init[..k] && es[k] == init[k];
    assert forall k: nat | k < |init| :: GoesOnAfterClose(es, k) <==> GoesOnAfterClose(init, k);
    assert GoesOnAfterClose(es, |init|) <==> SaidClose(Run(init).issued) && Issuing(Run(init), e);
  }

  /** Over every run, a message follows a response that advertised "close" (section 9.6 of
      RFC 9112) exactly if a request was answered or refused after it: nothing but the absence
      of further requests keeps the connection silent. */
  lemma {:induction false} NothingFollowsClose(es: seq<Event>)
    ensures FollowsClose(Run(es).issued) <==> exists k: nat | k < |es| :: GoesOnAfterClose(es, k)
  {
    if es != [] {
      var init, e := es[..|es| - 1], es[|es| - 1];
      assert es == init + [e];
      NothingFollowsClose(init);
      GoesOnSnoc(init, e);
      StepIssues(Run(init), e);
      FollowsAfter(Run(init).issued, Run(init), e);
    }
  }

  function Drained(c: Conn): Conn {
    c.(draining := true)
  }

  lemma SimpleIgnoresDraining(c: Conn, s: Request, m: Message, now: nat)
    ensures Complete(Reply(Hold(Drained(c), s), m), now) == Drained(Complete(Reply(Hold(c, s), m), now))
  {
  }

  lemma PumpIgnoresDraining(c: Conn, now: nat)
    requires c.owner.Held?
    ensures Pump(Drained(c), now) == Drained(Pump(c, now))
  {
  }

  lemma FullIgnoresDraining(c: Conn, s: Request, m: Message, now: nat)
    ensures Pump(Begin(Hold(Drained(c), s), m), now) == Drained(Pump(Begin(Hold(c, s), m), now))
  {
    assert Begin(Hold(Drained(c), s), m) == Drained(Begin(Hold(c, s), m));
    PumpIgnoresDraining(Begin(Hold(c, s), m), now);
  }

  lemma RespondIgnoresDraining(c: Conn, a: Answer, now: nat)
    requires c.owner.Held?
    ensures Respond(Drained(c), a, now) == Drained(Respond(c, a, now))
  {
    var r := c.owner.request;
    match a
    case Defer =>
    case Simple(code, body, force, width) =>
      var s := r.(keepAlive := r.keepAlive && !force, awaiting := false);
      SimpleIgnoresDraining(c, s, ReplyTo(s, code, |body|, body, width), now);
    case Full(code, declared, body, force, width) =>
      var s := r.(keepAlive := r.keepAlive && !force, awaiting := false, response := Some(body));
      FullIgnoresDraining(c, s, ReplyTo(s, code, declared, body, width), now);
  }

  lemma MessageIgnoresDraining(c: Conn, a: Answer, now: nat)
    ensures OnMessage(Drained(c), a, now) == Drained(OnMessage(c, a, now))
  {
    if c.owner.Held? {
      RespondIgnoresDraining(Hold(c.(isResp := true), c.owner.request.(awaiting := true)), a, now);
    }
  }

  lemma HeadersIgnoreDraining(c: Conn, v: Verdict)
    ensures OnHeaders(Drained(c), v) == Drained(OnHeaders(c, v))
  {
  }

  /** A connection that drains is not closed to requests: what the client pipelined is served
      exactly as if nothing had been said. */
  lemma DrainingServesOn(c: Conn, v: Verdict, whole: bool, a: Answer, now: nat)
    ensures Step(Drained(c), Parsed(v, whole, a, now)) == Drained(Step(c, Parsed(v, whole, a, now)))
  {
    HeadersIgnoreDraining(c, v);
    MessageIgnoresDraining(OnHeaders(c, v), a, now);
  }

  /** A run in which a response does follow one that advertised "close". */
  lemma ResponseAfterClose(now: nat)
    ensures
      var es := [Parsed(Accept(1, true), true, Simple(200, [], true, 80), now),
                 Parsed(Accept(2, true), true, Simple(200, [], false, 80), now)];
      && Run(es[..1]).draining && LastAdvert(Run(es[..1])) == Close
      && |Run(es).issued| == 2 && LastAdvert(Run(es)) == KeepAlive
  {
    var es := [Parsed(Accept(1, true), true, Simple(200, [], true, 80), now),
               Parsed(Accept(2, true), true, Simple(200, [], false, 80), now)];
    assert es[..1][..0] == [];
    assert Run(es[..1]) == Step(FRESH, es[0]);
  }

  // -------------------------------------------------------------------------
  // Which handler a request reaches
  // -------------------------------------------------------------------------

  /** The endpoint whose request handler the event runs. */
  function HandlerRun(c: Conn, e: Event): Option<nat> {
    if e.Parsed? && e.whole && !c.isResp && OnHeaders(c, e.verdict).owner.Held?
    then Some(OnHeaders(c, e.verdict).owner.request.endpoint) else None
  }

  /** An accepted request reaches the endpoint that accepted it. A refused one should reach
      none, and does so exactly when no earlier request of the connection is still its handler:
      on a reused connection it is handed to the previous endpoint, and answered twice unless
      that endpoint defers. */
  lemma RequestsReachTheirHandler(c: Conn, v: Verdict, a: Answer, now: nat)
    requires TakesNext(c)
    ensures v.Accept? ==> HandlerRun(c, Parsed(v, true, a, now)) == Some(v.endpoint)
    ensures v.Refuse? ==> (HandlerRun(c, Parsed(v, true, a, now)) == None <==> c.owner.Server?)
    ensures |Step(c, Parsed(v, true, a, now)).issued| == |c.issued|
              + (if v.Refuse? then 1 else 0) + (if a.Defer? || (v.Refuse? && c.owner.Server?) then 0 else 1)
  {
  }

  /** Two requests, three responses: the second request is refused and still handled. */
  lemma RefusedOnReusedConnection(now: nat)
    ensures
      var ok := Simple(200, [], false, 80);
      var es := [Parsed(Accept(7, true), true, ok, now), Parsed(Refuse(405, [], 60), true, ok, now)];
      && HandlerRun(Run(es[..1]), es[1]) == Some(7)
      && |Run(es).issued| == 3
  {
    var ok := Simple(200, [], false, 80);
    var es := [Parsed(Accept(7, true), true, ok, now), Parsed(Refuse(405, [], 60), true, ok, now)];
    assert es[..1][..0] == [];
    assert Run(es[..1]) == Step(FRESH, es[0]);
    assert TakesNext(Run(es[..1]));
    RequestsReachTheirHandler(FRESH, Accept(7, true), ok, now);
    RequestsReachTheirHandler(Run(es[..1]), Refuse(405, [], 60), ok, now);
  }

  function Repeat(e: Event, n: nat): (r: seq<Event>)
    ensures |r| == n
  {
    if n == 0 then [] else Repeat(e, n - 1) + [e]
  }

  lemma RefusalStep(c: Conn, code: nat, body: bytes, width: nat, a: Answer, now: nat)
    requires TakesNext(c)
    ensures
      var d := Step(c, Parsed(Refuse(code, body, width), false, a, now));
      |d.issued| == |c.issued| + 1 && d.owner == c.owner && d.draining && TakesNext(d)
  {
  }

  /** A refused request whose body is still arriving is refused again each time its headers
      are parsed, whoever holds the connection. */
  lemma {:induction false} OneRefusalPerParse(es: seq<Event>, code: nat, body: bytes, width: nat, a: Answer,
                                              now: nat, n: nat)
    requires TakesNext(Run(es))
    ensures
      var c, d := Run(es), Run(es + Repeat(Parsed(Refuse(code, body, width), false, a, now), n));
      |d.issued| == |c.issued| + n && d.owner == c.owner && (n > 0 ==> d.draining) && TakesNext(d)
  {
    var e := Parsed(Refuse(code, body, width), false, a, now);
    if n == 0 {
      assert es + Repeat(e, 0) == es;
    } else {
      var before := es + Repeat(e, n - 1);
      OneRefusalPerParse(es, code, body, width, a, now, n - 1);
      RefusalStep(Run(before), code, body, width, a, now);
      RunSnoc(before, e);
      assert es + Repeat(e, n) == before + [e];
    }
  }

  // -------------------------------------------------------------------------
  // When an idle connection is drained
  // -------------------------------------------------------------------------

  function From(c: Conn, es: seq<Event>): Conn {
    if es == [] then c else Step(From(c, es[..|es| - 1]), es[|es| - 1])
  }

  lemma FromSnoc(c: Conn, es: seq<Event>, e: Event)
    ensures From(c, es + [e]) == Step(From(c, es), e)
  {
    assert (es + [e])[..|es|] == es;
  }

  lemma {:induction false} RunConcat(a: seq<Event>, b: seq<Event>)
    ensures Run(a + b) == From(Run(a), b)
  {
    if b == [] {
      assert a + b == a;
    } else {
      var init, e := b[..|b| - 1], b[|b| - 1];
      RunConcat(a, init);
      RunSnoc(a + init, e);
      FromSnoc(Run(a), init, e);
      assert a + b == (a + init) + [e] && b == init + [e];
    }
  }

  /** The request has been answered, and the connection is waiting for the next one. */
  predicate Idle(c: Conn) {
    c.owner.Held? && c.owner.request.completed && !c.owner.request.awaiting && c.owner.request.response.None?
  }

  /** Nothing comes from the client and nothing is asked of the manager: it writes and polls,
      and the application may still call forceClose(). */
  predicate Parked(es: seq<Event>) {
    forall i | 0 <= i < |es| :: es[i].Tick? || es[i].Buffer? || es[i].Forced?
  }

  /** How much of what was queued is left to send after `k` events, of `len` before them. */
  function Unsent(len: nat, es: seq<Event>, k: nat): nat
    requires k <= |es|
  {
    if k == 0 then len else if es[k - 1].Buffer? then es[k - 1].len else Unsent(len, es, k - 1)
  }

  predicate ForcedBefore(es: seq<Event>, k: nat)
    requires k <= |es|
  {
    exists j | 0 <= j < k :: es[j].Forced?
  }

  /** The k-th event is a poll that finds the timeout passed since that time, nothing left to
      send, and no forceClose() before it. */
  predicate Reaps(since: nat, len: nat, es: seq<Event>, k: nat)
    requires k < |es|
  {
    && es[k].Tick? && es[k].now - since >= es[k].timeout
    && Unsent(len, es, k) == 0 && !ForcedBefore(es, k)
  }

  lemma UnsentPrefix(len: nat, es: seq<Event>, e: Event, k: nat)
    requires k <= |es|
    ensures Unsent(len, es + [e], k) == Unsent(len, es, k)
  {
    if k > 0 {
      UnsentPrefix(len, es, e, k - 1);
      assert (es + [e])[k - 1] == es[k - 1];
    }
  }

  lemma ForcedPrefix(es: seq<Event>, e: Event, k: nat)
    requires k <= |es|
    ensures ForcedBefore(es + [e], k) <==> ForcedBefore(es, k)
    ensures ForcedBefore(es + [e], |es| + 1) <==> ForcedBefore(es, |es|) || e.Forced?
  {
    var all := es + [e];
    assert forall j | 0 <= j < |es| :: all[j] == es[j];
    assert all[|es|] == e;
  }

  lemma {:induction false} ParkedState(c: Conn, es: seq<Event>)
    requires Idle(c) && Parked(es)
    ensures
      var d := From(c, es);
      && Idle(d) && d.owner.request.lastActivity == c.owner.request.lastActivity
      && (d.owner.request.keepAlive <==> c.owner.request.keepAlive && !ForcedBefore(es, |es|))
      && d.sendLen == Unsent(c.sendLen, es, |es|) && d.queued == c.queued && d.issued == c.issued
  {
    if es != [] {
      var init, e := es[..|es| - 1], es[|es| - 1];
      assert es == init + [e];
      ParkedState(c, init);
      UnsentPrefix(c.sendLen, init, e, |init|);
      ForcedPrefix(init, e, |init|);
    }
  }

  lemma ReapsSnoc(since: nat, len: nat, init: seq<Event>, e: Event)
    ensures (exists k: nat | k < |init| + 1 :: Reaps(since, len, init + [e], k)) <==>
            (exists k: nat | k < |init| :: Reaps(since, len, init, k)) || Reaps(since, len, init + [e], |init|)
  {
    var es := init + [e];
    forall k: nat | k < |init| ensures Reaps(since, len, es, k) <==> Reaps(since, len, init, k) {
      UnsentPrefix(len, init, e, k);
      ForcedPrefix(init, e, k);
      assert es[k] == init[k];
    }
  }

  lemma LastReaps(c: Conn, init: seq<Event>, e: Event)
    requires Idle(c) && Parked(init + [e])
    ensures Step(From(c, init), e).draining <==>
            || From(c, init).draining
            || (c.owner.request.keepAlive && Reaps(c.owner.request.lastActivity, c.sendLen, init + [e], |init|))
  {
    assert Parked(init) by {
      assert forall i | 0 <= i < |init| :: init[i] == (init + [e])[i];
    }
    ParkedState(c, init);
    UnsentPrefix(c.sendLen, init, e, |init|);
    ForcedPrefix(init, e, |init|);
    assert (init + [e])[|init|] == e;
  }

  lemma {:induction false} ParkedIsReaped(c: Conn, es: seq<Event>)
    requires Idle(c) && Parked(es)
    ensures From(c, es).draining <==>
            || c.draining
            || (c.owner.request.keepAlive
                && exists k: nat | k < |es| :: Reaps(c.owner.request.lastActivity, c.sendLen, es, k))
  {
    if es != [] {
      var init, e := es[..|es| - 1], es[|es| - 1];
      assert es == init + [e];
      ParkedIsReaped(c, init);
      ReapsSnoc(c.owner.request.lastActivity, c.sendLen, init, e);
      LastReaps(c, init, e);
    }
  }

  /** After any run that leaves a connection idle: while nothing comes from the client, the
      connection is drained exactly if its request was to keep it and a poll finds the timeout
      passed since the last response was completed, everything sent, and no forceClose()
      before. */
  lemma IdleConnectionIsReaped(past: seq<Event>, es: seq<Event>)
    requires Idle(Run(past)) && Parked(es)
    ensures Run(past + es).draining <==>
            || Run(past).draining
            || (KeptOpen(past)
                && exists k: nat | k < |es| :: Reaps(LastCompletion(past), Run(past).sendLen, es, k))
  {
    RunConcat(past, es);
    RequestIsAsTold(past);
    ParkedIsReaped(Run(past), es);
  }

  /** So forceClose() on a request already answered as keep-alive does not close the connection:
      it keeps the reaper from ever doing so. */
  lemma ForcedIsNeverReaped(past: seq<Event>, es: seq<Event>)
    requires Idle(Run(past)) && !Run(past).draining && !KeptOpen(past) && Parked(es)
    ensures !Run(past + es).draining
  {
    IdleConnectionIsReaped(past, es);
  }

  /** A run that gets there. */
  lemma ForcedAfterCompletion(now: nat, es: seq<Event>)
    requires Parked(es)
    ensures !Run([Parsed(Accept(1, true), true, Simple(200, [], false, 80), now), Forced] + es).draining
  {
    var past := [Parsed(Accept(1, true), true, Simple(200, [], false, 80), now), Forced];
    assert past[..1][..0] == [] && past[..1] == [past[0]];
    assert Run(past[..1]) == Step(FRESH, past[0]);
    assert Run(past) == Step(Step(FRESH, past[0]), Forced);
    ForcedIsNeverReaped(past, es);
  }

  lemma AnsweredAtMinute()
    ensures
      var past := [Parsed(Accept(1, true), true, Simple(200, [], false, 80), 60000), Buffer(512, 0)];
      && Idle(Run(past)) && !Run(past).draining && Run(past).sendLen == 0
      && KeptOpen(past) && LastCompletion(past) == 60000
  {
    var past := [Parsed(Accept(1, true), true, Simple(200, [], false, 80), 60000), Buffer(512, 0)];
    assert past[..1][..0] == [] && past[..1] == [past[0]];
    assert Run(past[..1]) == Step(FRESH, past[0]);
    assert Run(past) == Step(Step(FRESH, past[0]), Buffer(512, 0));
    RequestIsAsTold(past);
  }

  /** Answered at 60000, a connection kept for 30000 outlives every poll before 90000, and the
      first then that has everything sent drains it. */
  lemma KeptForItsTimeout(polls: seq<Event>)
    requires Parked(polls) && forall i | 0 <= i < |polls| :: polls[i].Tick? ==> polls[i].timeout == 30000
    requires forall i | 0 <= i < |polls| :: !polls[i].Forced?
    ensures
      var past := [Parsed(Accept(1, true), true, Simple(200, [], false, 80), 60000), Buffer(512, 0)];
      Run(past + polls).draining <==>
      exists k: nat | k < |polls| :: polls[k].Tick? && polls[k].now >= 90000 && Unsent(0, polls, k) == 0
  {
    var past := [Parsed(Accept(1, true), true, Simple(200, [], false, 80), 60000), Buffer(512, 0)];
    AnsweredAtMinute();
    IdleConnectionIsReaped(past, polls);
    forall k: nat | k < |polls|
      ensures Reaps(60000, 0, polls, k) <==> polls[k].Tick? && polls[k].now >= 90000 && Unsent(0, polls, k) == 0
    {
      assert !ForcedBefore(polls, k);
    }
  }
}
