/** The reconnecting WebSocket client: its connection pointer, its state and its clock
    against every order of manager events and application calls. Application callbacks
    are taken not to re-enter the client.
 */
module WebSocketClient {
  import opened Backoff
  import opened Wrappers

  datatype State = Disconnected | Connecting | Connected | Closing | ErrorState

  type id = nat

  /** A manager connection the client opened; `dispatches` is "fn_data is the client". */
  datatype Link = Link(dispatches: bool, draining: bool, closing: bool)

  /** How opening a connection can go: refused, under way, or already failed, with the
      error event delivered before the connection is handed back. */
  datatype Opening = Refused | Opened(id: id) | FailedInside(id: id)

  datatype Client = Client(
    nc: Option<id>,
    state: State,
    hasUrl: bool,
    interval: uint32,
    lastAttempt: uint32,
    attempts: nat,
    pingInterval: uint32,
    lastPing: uint32,
    staleTimeout: uint32,
    lastRecv: uint32,
    links: map<id, Link>)

  datatype Event =
    | Connect(urlGiven: bool, now: nat, opening: Opening)
    | Loop(now: nat, opening: Opening)
    | Disconnect
    | SetInterval(ms: uint32)
    | OnConnect(id: id)
    | OnPoll(id: id, now: nat)
    | OnError(id: id)
    | OnClose(id: id)
    | OnOpen(id: id, now: nat)
    | OnMessage(id: id, now: nat)
    | OnControl(id: id, now: nat, isClose: bool)

  /** The millisecond counter shows the true time in 32 bits. */
  function Clock(now: nat): uint32 {
    now % WORD
  }

  function Elapsed(now: uint32, since: uint32): uint32 {
    (now - since) % WORD
  }

  // -------------------------------------------------------------------------
  // What each call and each event does
  // -------------------------------------------------------------------------

  function Cleaned(c: Client): Client {
    c.(nc := None, state := Disconnected)
  }

  predicate Attempts(c: Client, now: nat) {
    && c.hasUrl
    && (c.state == Disconnected || c.state == ErrorState)
    && (c.lastAttempt == 0 || Elapsed(Clock(now), c.lastAttempt) >= Delay(c.interval, c.attempts))
  }

  /** `mg_ws_connect` followed by `MongooseSocket::connect`. */
  function AfterOpening(c: Client, opening: Opening): Client {
    match opening
    case Refused => c.(state := Disconnected)
    case Opened(i) =>
      var d := c.(links := c.links[i := Link(true, false, false)]);
      if d.nc.Some? && d.state == Connected then d.(state := Disconnected)
      else d.(nc := Some(i), state := Connecting)
    case FailedInside(i) =>
      // the error event ran onError: detached and cleaned up, before the pointer is stored
      Cleaned(c).(links := c.links[i := Link(false, false, true)]).(nc := Some(i), state := Connecting)
  }

  function DoAttempt(c: Client, now: nat, opening: Opening): Client {
    if !Attempts(c, now) then c
    else AfterOpening(c.(lastAttempt := Clock(now), attempts := c.attempts + 1), opening)
  }

  function Dropped(c: Client): Client {
    if c.nc.None? then c
    else
      var i := c.nc.value;
      Cleaned(c).(links := if i in c.links then c.links[i := c.links[i].(dispatches := false, closing := true)]
                           else c.links)
  }

  function DoConnect(c: Client, urlGiven: bool, now: nat, opening: Opening): Client {
    if !urlGiven then c
    else DoAttempt(Dropped(c).(hasUrl := true, attempts := 0, lastAttempt := 0), now, opening)
  }

  function DoDisconnect(c: Client): Client {
    if c.nc.None? then c
    else
      var i := c.nc.value;
      c.(state := Closing,
         links := if i in c.links then c.links[i := c.links[i].(draining := true)] else c.links)
  }

  function DoLoop(c: Client, now: nat, opening: Opening): Client {
    if (c.state == Disconnected || c.state == ErrorState) && c.hasUrl && c.interval > 0
    then DoAttempt(c, now, opening) else c
  }

  function Polled(c: Client, now: nat): Client {
    var d := if c.state == Connected && c.pingInterval > 0 && Elapsed(Clock(now), c.lastPing) >= c.pingInterval
                && c.nc.Some?
             then c.(lastPing := Clock(now)) else c;
    if d.state == Connected && d.staleTimeout > 0 && Elapsed(Clock(now), d.lastRecv) > d.staleTimeout
    then DoDisconnect(d) else d
  }

  function Errored(c: Client, i: id): Client
    requires i in c.links
  {
    Cleaned(c).(links := c.links[i := c.links[i].(dispatches := false, closing := true)])
  }

  function WentOpen(c: Client, now: nat): Client {
    c.(state := Connected, lastRecv := Clock(now), lastPing := Clock(now), attempts := 0)
  }

  /** An event reaches the client only through a connection that still points at it. */
  predicate Reaches(c: Client, i: id) {
    i in c.links && c.links[i].dispatches
  }

  function Step(c: Client, e: Event): Client {
    match e
    case Connect(given, now, opening) => DoConnect(c, given, now, opening)
    case Loop(now, opening) => DoLoop(c, now, opening)
    case Disconnect => DoDisconnect(c)
    case SetInterval(ms) => c.(interval := ms)
    case OnConnect(i) => if Reaches(c, i) then c.(state := Connecting) else c
    case OnPoll(i, now) => if Reaches(c, i) then Polled(c, now) else c
    case OnError(i) => if Reaches(c, i) then Errored(c, i) else c
    case OnClose(i) => var d := if Reaches(c, i) then Cleaned(c) else c; d.(links := d.links - {i})
    case OnOpen(i, now) => if Reaches(c, i) then WentOpen(c, now) else c
    case OnMessage(i, now) => if Reaches(c, i) then c.(lastRecv := Clock(now)) else c
    case OnControl(i, now, isClose) =>
      if Reaches(c, i) then c.(lastRecv := Clock(now), state := if isClose then Closing else c.state) else c
  }

  function Run(c: Client, es: seq<Event>): Client {
    if es == [] then c else Step(Run(c, es[..|es| - 1]), es[|es| - 1])
  }

  // -------------------------------------------------------------------------
  // The invariant
  // -------------------------------------------------------------------------

  /** Between events: the pointer is set exactly in the three live states, the error state
      is not observable, and the one connection that dispatches here is the pointer. */
  predicate Consistent(c: Client) {
    && (c.nc.Some? <==> c.state == Connecting || c.state == Connected || c.state == Closing)
    && c.state != ErrorState
    && (c.nc.Some? ==> Reaches(c, c.nc.value))
    && forall i | i in c.links && c.links[i].dispatches :: c.nc == Some(i)
  }

  predicate UsesOpening(c: Client, e: Event) {
    match e
    case Connect(given, now, _) => given && Attempts(Dropped(c).(hasUrl := true, attempts := 0, lastAttempt := 0), now)
    case Loop(now, _) => c.interval > 0 && Attempts(c, now)
    case _ => false
  }

  function OpeningOf(e: Event): Opening {
    match e
    case Connect(_, _, o) => o
    case Loop(_, o) => o
    case _ => Refused
  }

  /** The manager never hands out a connection that is still open. */
  predicate Fresh(c: Client, e: Event) {
    OpeningOf(e).Refused? || OpeningOf(e).id !in c.links
  }

  /** One step keeps the invariant exactly when it does not open a connection that failed
      before it was handed back. */
  lemma StepKeepsConsistent(c: Client, e: Event)
    requires Consistent(c) && Fresh(c, e)
    ensures Consistent(Step(c, e)) <==> !(UsesOpening(c, e) && OpeningOf(e).FailedInside?)
  {
    if UsesOpening(c, e) && OpeningOf(e).FailedInside? {
      var d := Step(c, e);
      assert d.nc == Some(OpeningOf(e).id) && !d.links[d.nc.value].dispatches;
    }
  }

  /** Every connection the run opens is new to the manager. */
  predicate FreshRun(c: Client, es: seq<Event>) {
    es == [] ||
    var init, e := es[..|es| - 1], es[|es| - 1];
    FreshRun(c, init) && Fresh(Run(c, init), e)
  }

  predicate FailsInside(c: Client, es: seq<Event>) {
    es != [] &&
    var init, e := es[..|es| - 1], es[|es| - 1];
    FailsInside(c, init) || (UsesOpening(Run(c, init), e) && OpeningOf(e).FailedInside?)
  }

  predicate ConsistentThroughout(c: Client, es: seq<Event>) {
    Consistent(Run(c, es)) && (es == [] || ConsistentThroughout(c, es[..|es| - 1]))
  }

  /** A whole run keeps the invariant at every step exactly when no connection fails inside
      the opening call. */
  lemma {:induction false} RunsStayConsistent(c: Client, es: seq<Event>)
    requires Consistent(c) && FreshRun(c, es)
    ensures ConsistentThroughout(c, es) <==> !FailsInside(c, es)
  {
    if es != [] {
      var init := es[..|es| - 1];
      RunsStayConsistent(c, init);
      if ConsistentThroughout(c, init) {
        StepKeepsConsistent(Run(c, init), es[|es| - 1]);
      }
    }
  }

  /** Replacing a live connection: nothing but the new one can reach the client. */
  lemma ConnectReplaces(c: Client, now: nat, i: id)
    requires Consistent(c) && i !in c.links
    ensures
      var d := DoConnect(c, true, now, Opened(i));
      && d.nc == Some(i) && d.state == Connecting && d.attempts == 1
      && (forall k :: Reaches(d, k) <==> k == i)
      && (c.nc.Some? ==> d.links[c.nc.value].closing)
  {
    var d := Dropped(c);
    assert forall k | k in d.links :: !d.links[k].dispatches;
  }

  /** A client whose pointer names a connection that no longer reaches it. */
  predicate Stranded(c: Client) {
    && c.nc.Some? && (c.state == Connecting || c.state == Closing)
    && forall i | i in c.links :: !c.links[i].dispatches
  }

  /** That is what a failure inside the opening call leaves behind, and nothing but another
      connect() ends it: no event arrives and loop() never tries again. */
  lemma FailureInsideStrands(c: Client, e: Event)
    requires Consistent(c) && Fresh(c, e) && UsesOpening(c, e) && OpeningOf(e).FailedInside?
    ensures Stranded(Step(c, e))
  {
    var d := Dropped(c);
    assert forall i | i in d.links :: !d.links[i].dispatches;
  }

  lemma {:induction false} StrandedForGood(c: Client, es: seq<Event>)
    requires Stranded(c) && forall k | 0 <= k < |es| :: !es[k].Connect?
    ensures Stranded(Run(c, es)) && Run(c, es).attempts == c.attempts
  {
    if es != [] {
      StrandedForGood(c, es[..|es| - 1]);
    }
  }

  // -------------------------------------------------------------------------
  // Spacing of attempts
  // -------------------------------------------------------------------------

  predicate AttemptedBy(c: Client, e: Event) {
    e.Loop? && c.interval > 0 && Attempts(c, e.now)
  }

  lemma WrappedNeverExceedsTrue(t1: nat, t2: nat)
    requires t1 <= t2
    ensures Elapsed(Clock(t2), Clock(t1)) <= t2 - t1
  {
    var q1, q2 := t1 / WORD, t2 / WORD;
    assert Clock(t2) - Clock(t1) == (t2 - t1) - (q2 - q1) * WORD;
    ModOfShift(t2 - t1, q2 - q1);
  }

  /** Within one turn of the clock it is the true one. */
  lemma WrappedIsTrue(t1: nat, t2: nat)
    requires t1 <= t2 < t1 + WORD
    ensures Elapsed(Clock(t2), Clock(t1)) == t2 - t1
  {
    var q1, q2 := t1 / WORD, t2 / WORD;
    assert Clock(t2) - Clock(t1) == (t2 - t1) - (q2 - q1) * WORD;
    ModOfShift(t2 - t1, q2 - q1);
  }

  lemma {:induction false} ModOfShift(d: nat, q: int)
    ensures (d - q * WORD) % WORD == d % WORD
  {
    assert d == d / WORD * WORD + d % WORD;
    ModIsUnique(d - q * WORD, d / WORD - q, d % WORD);
  }

  lemma ModIsUnique(x: int, q: int, r: nat)
    requires r < WORD && x == q * WORD + r
    ensures x % WORD == r
  {
    var s := x % WORD;
    assert x == x / WORD * WORD + s;
    assert (x / WORD - q) * WORD == r - s;
  }

  /** No connect(), and no attempt by loop(). */
  predicate Quiet(c: Client, es: seq<Event>) {
    es == [] ||
    var init, e := es[..|es| - 1], es[|es| - 1];
    Quiet(c, init) && !e.Connect? && !AttemptedBy(Run(c, init), e)
  }

  /** Nothing else moves the time of the last attempt. */
  lemma {:induction false} LastAttemptStays(c: Client, es: seq<Event>)
    requires Quiet(c, es)
    ensures Run(c, es).lastAttempt == c.lastAttempt
  {
    if es != [] {
      LastAttemptStays(c, es[..|es| - 1]);
    }
  }

  predicate Unconnected(c: Client) {
    c.interval > 0 && c.hasUrl && (c.state == Disconnected || c.state == ErrorState)
  }

  /** Two attempts by loop() in a row, with any other events but connect() between, are at
      least the backoff of the later one apart in true time, however often the 32-bit clock
      wrapped; within one turn of the clock an unconnected client makes the second exactly when
      that has passed. If the clock read 0 at the first, the second is not held back at all. */
  lemma AttemptsAreSpaced(c: Client, t1: nat, o1: Opening, es: seq<Event>, t2: nat, o2: Opening)
    requires t1 <= t2 && AttemptedBy(c, Loop(t1, o1)) && Quiet(Step(c, Loop(t1, o1)), es)
    ensures
      var c2 := Run(Step(c, Loop(t1, o1)), es);
      var again := AttemptedBy(c2, Loop(t2, o2));
      && (Clock(t1) != 0 && again ==> t2 - t1 >= Delay(c2.interval, c2.attempts))
      && (Clock(t1) != 0 && t2 < t1 + WORD ==>
            (again <==> Unconnected(c2) && t2 - t1 >= Delay(c2.interval, c2.attempts)))
      && (Clock(t1) == 0 ==> again == Unconnected(c2))
  {
    LastAttemptStays(Step(c, Loop(t1, o1)), es);
    WrappedNeverExceedsTrue(t1, t2);
    if t2 < t1 + WORD {
      WrappedIsTrue(t1, t2);
    }
  }

  // -------------------------------------------------------------------------
  // How many attempts the backoff counts
  // -------------------------------------------------------------------------

  /** The attempts made since the client last connected or was last told to, `before` in all if
      neither ever happened. */
  function Counted(c: Client, es: seq<Event>, before: nat): nat {
    if es == [] then before
    else
      var init, e := es[..|es| - 1], es[|es| - 1];
      var b := Run(c, init);
      var since := if (e.Connect? && e.urlGiven) || (e.OnOpen? && Reaches(b, e.id)) then 0
                   else Counted(c, init, before);
      if UsesOpening(b, e) then since + 1 else since
  }

  /** The count behind the backoff is just that, over every run. */
  lemma {:induction false} AttemptsAreCounted(c: Client, es: seq<Event>)
    ensures Run(c, es).attempts == Counted(c, es, c.attempts)
  {
    if es != [] {
      var init, e := es[..|es| - 1], es[|es| - 1];
      AttemptsAreCounted(c, init);
      StepCounts(Run(c, init), e);
    }
  }

  lemma StepCounts(c: Client, e: Event)
    ensures
      var since := if (e.Connect? && e.urlGiven) || (e.OnOpen? && Reaches(c, e.id)) then 0 else c.attempts;
      Step(c, e).attempts == if UsesOpening(c, e) then since + 1 else since
  {
  }

  /** Nothing succeeds, and nobody calls connect(). */
  predicate NothingSucceeds(es: seq<Event>) {
    forall i | 0 <= i < |es| :: !es[i].Connect? && !es[i].OnOpen?
  }

  function AttemptsIn(c: Client, es: seq<Event>): nat {
    if es == [] then 0
    else
      var init, e := es[..|es| - 1], es[|es| - 1];
      AttemptsIn(c, init) + if AttemptedBy(Run(c, init), e) then 1 else 0
  }

  lemma {:induction false} FailuresAddUp(c: Client, es: seq<Event>)
    requires NothingSucceeds(es)
    ensures Run(c, es).attempts == c.attempts + AttemptsIn(c, es)
  {
    if es != [] {
      var init := es[..|es| - 1];
      assert forall i | 0 <= i < |init| :: init[i] == es[i];
      FailuresAddUp(c, init);
      StepCounts(Run(c, init), es[|es| - 1]);
      OpeningIsAnAttempt(Run(c, init), es[|es| - 1]);
    }
  }

  lemma OpeningIsAnAttempt(c: Client, e: Event)
    requires !e.Connect?
    ensures UsesOpening(c, e) <==> AttemptedBy(c, e)
  {
  }

  /** And an attempt followed by events that make none adds one. */
  lemma OneMoreFailure(b: Client, t1: nat, o1: Opening, gap: seq<Event>)
    requires AttemptedBy(b, Loop(t1, o1)) && NothingSucceeds(gap) && Quiet(Step(b, Loop(t1, o1)), gap)
    ensures Run(Step(b, Loop(t1, o1)), gap).attempts == b.attempts + 1
  {
    StepCounts(b, Loop(t1, o1));
    FailuresAddUp(Step(b, Loop(t1, o1)), gap);
    QuietAttemptsNothing(Step(b, Loop(t1, o1)), gap);
  }

  /** After n attempts in a row that came to nothing, the next one keeps a distance of at least
      Delay(interval, n): the backoff grows with the failures. */
  lemma FailuresLengthenTheWait(c: Client, es: seq<Event>, t1: nat, o1: Opening, gap: seq<Event>, t2: nat, o2: Opening)
    requires NothingSucceeds(es) && NothingSucceeds(gap) && t1 <= t2 && Clock(t1) != 0
    requires AttemptedBy(Run(c, es), Loop(t1, o1)) && Quiet(Step(Run(c, es), Loop(t1, o1)), gap)
    ensures
      var c1 := Step(Run(c, es), Loop(t1, o1));
      var c2 := Run(c1, gap);
      var n := AttemptsIn(c, es) + 1;
      && c2.attempts == c.attempts + n
      && (AttemptedBy(c2, Loop(t2, o2)) ==> t2 - t1 >= Delay(c2.interval, n))
  {
    var b := Run(c, es);
    FailuresAddUp(c, es);
    OneMoreFailure(b, t1, o1, gap);
    AttemptsAreSpaced(b, t1, o1, gap, t2, o2);
    var c2 := Run(Step(b, Loop(t1, o1)), gap);
    DelayNeverDecreases(c2.interval, AttemptsIn(c, es) + 1, c2.attempts);
  }

  lemma {:induction false} QuietAttemptsNothing(c: Client, es: seq<Event>)
    requires Quiet(c, es)
    ensures AttemptsIn(c, es) == 0
  {
    if es != [] {
      QuietAttemptsNothing(c, es[..|es| - 1]);
    }
  }

  // -------------------------------------------------------------------------
  // When a silent connection is given up
  // -------------------------------------------------------------------------

  /** The true time at which the peer was last heard of, `before` if it never was. */
  function HeardAt(c: Client, es: seq<Event>, before: nat): nat {
    if es == [] then before
    else
      var init, e := es[..|es| - 1], es[|es| - 1];
      if Hears(Run(c, init), e) then e.now
      else HeardAt(c, init, before)
  }

  predicate Hears(c: Client, e: Event) {
    (e.OnOpen? || e.OnMessage? || e.OnControl?) && Reaches(c, e.id)
  }

  lemma StepHears(c: Client, e: Event)
    ensures Step(c, e).lastRecv == if Hears(c, e) then Clock(e.now) else c.lastRecv
    ensures Step(c, e).staleTimeout == c.staleTimeout && Step(c, e).pingInterval == c.pingInterval
  {
  }

  lemma {:induction false} HearingIsRecorded(c: Client, es: seq<Event>, before: nat)
    requires c.lastRecv == Clock(before)
    ensures Run(c, es).lastRecv == Clock(HeardAt(c, es, before))
    ensures Run(c, es).staleTimeout == c.staleTimeout && Run(c, es).pingInterval == c.pingInterval
  {
    if es != [] {
      HearingIsRecorded(c, es[..|es| - 1], before);
      StepHears(Run(c, es[..|es| - 1]), es[|es| - 1]);
    }
  }

  /** After any run of an open connection, a poll within one turn of the clock gives the
      connection up exactly if a limit is set and the peer has been silent for longer; it then
      drains. It does nothing else but ping. */
  lemma StaleConnectionIsDropped(c: Client, es: seq<Event>, before: nat, i: id, now: nat)
    requires c.lastRecv == Clock(before) && Consistent(Run(c, es))
    requires Run(c, es).state == Connected && Run(c, es).nc == Some(i)
    requires HeardAt(c, es, before) <= now < HeardAt(c, es, before) + WORD
    ensures
      var b, d := Run(c, es), Step(Run(c, es), OnPoll(i, now));
      var stale := c.staleTimeout > 0 && now - HeardAt(c, es, before) > c.staleTimeout;
      && d.state == (if stale then Closing else Connected)
      && d.nc == Some(i) && i in d.links && d.links[i].dispatches
      && d.links[i].draining == (b.links[i].draining || stale) && d.links[i].closing == b.links[i].closing
      && d.lastRecv == b.lastRecv && d.attempts == b.attempts
  {
    HearingIsRecorded(c, es, before);
    WrappedIsTrue(HeardAt(c, es, before), now);
  }

  // -------------------------------------------------------------------------
  // What moves the state
  // -------------------------------------------------------------------------

  predicate GoesStale(c: Client, e: Event) {
    && e.OnPoll? && Reaches(c, e.id) && c.state == Connected && c.staleTimeout > 0
    && Elapsed(Clock(e.now), c.lastRecv) > c.staleTimeout
  }

  /** The connection is replaced, errored, closed, or reported as still connecting. */
  predicate Unsettles(c: Client, e: Event) {
    || (e.Connect? && e.urlGiven)
    || ((e.OnConnect? || e.OnError? || e.OnClose?) && Reaches(c, e.id))
  }

  /** The client or the peer asks for the end, or the peer has been silent for too long. */
  predicate Ends(c: Client, e: Event) {
    || (e.Disconnect? && c.nc.Some?) || GoesStale(c, e)
    || (e.OnControl? && e.isClose && Reaches(c, e.id))
  }

  /** Connected is what an open event makes the client, until it ends or is unsettled; Closing
      is what its end makes it, until it is unsettled or opens. */
  lemma StepMovesState(c: Client, e: Event)
    requires Consistent(c) && Fresh(c, e)
    ensures
      var d := Step(c, e);
      var goesOpen := e.OnOpen? && Reaches(c, e.id);
      && (d.state == Connected <==> goesOpen || (c.state == Connected && !Ends(c, e) && !Unsettles(c, e)))
      && (d.state == Closing <==> Ends(c, e) || (c.state == Closing && !goesOpen && !Unsettles(c, e)))
  {
  }

  lemma ConnectKeepsLinks(c: Client, e: Event, i: id)
    requires Consistent(c) && Fresh(c, e) && i in c.links && e.Connect?
    ensures
      var l, d := c.links[i], Step(c, e);
      var cut := e.urlGiven && c.nc == Some(i);
      i in d.links && d.links[i] == if cut then l.(dispatches := false, closing := true) else l
  {
    var d := Dropped(c);
    assert i in d.links && d.links[i] == if c.nc == Some(i) then c.links[i].(dispatches := false, closing := true)
                                         else c.links[i];
  }

  /** A connection that is replaced or errored is closed and cut off; one that is to end drains;
      nothing else touches it before it is closed. */
  lemma StepKeepsLinks(c: Client, e: Event, i: id)
    requires Consistent(c) && Fresh(c, e) && i in c.links && e != OnClose(i)
    ensures
      var l, d := c.links[i], Step(c, e);
      var cut := (e == OnError(i) && l.dispatches) || (e.Connect? && e.urlGiven && c.nc == Some(i));
      && i in d.links
      && (d.links[i].dispatches <==> l.dispatches && !cut)
      && (d.links[i].closing <==> l.closing || cut)
      && (d.links[i].draining <==> l.draining || (c.nc == Some(i) && (e.Disconnect? || GoesStale(c, e))))
  {
    if e.Connect? {
      ConnectKeepsLinks(c, e, i);
    }
  }

  /** The interval last set, or the one there was. */
  function IntervalSet(es: seq<Event>, before: uint32): uint32 {
    if es == [] then before
    else if es[|es| - 1].SetInterval? then es[|es| - 1].ms
    else IntervalSet(es[..|es| - 1], before)
  }

  lemma {:induction false} IntervalIsAsSet(c: Client, es: seq<Event>)
    ensures Run(c, es).interval == IntervalSet(es, c.interval)
  {
    if es != [] {
      IntervalIsAsSet(c, es[..|es| - 1]);
    }
  }

  /** The address once given is kept, through failures and disconnects. */
  predicate UrlGiven(es: seq<Event>) {
    es != [] && ((es[|es| - 1].Connect? && es[|es| - 1].urlGiven) || UrlGiven(es[..|es| - 1]))
  }

  lemma {:induction false} UrlIsKept(c: Client, es: seq<Event>)
    ensures Run(c, es).hasUrl <==> c.hasUrl || UrlGiven(es)
  {
    if es != [] {
      UrlIsKept(c, es[..|es| - 1]);
    }
  }

  // -------------------------------------------------------------------------
  // When an open connection is pinged
  // -------------------------------------------------------------------------

  /** The true time of the last ping, counted from the opening. */
  function PingedAt(c: Client, es: seq<Event>, before: nat): nat {
    if es == [] then before
    else
      var init, e := es[..|es| - 1], es[|es| - 1];
      var b := Run(c, init);
      if e.OnOpen? && Reaches(b, e.id) then e.now
      else if e.OnPoll? && Pings(b, e.id, e.now) then e.now
      else PingedAt(c, init, before)
  }

  predicate Pings(c: Client, i: id, now: nat) {
    Reaches(c, i) && c.state == Connected && c.pingInterval > 0 && c.nc.Some?
    && Elapsed(Clock(now), c.lastPing) >= c.pingInterval
  }

  lemma StepPings(c: Client, e: Event)
    ensures Step(c, e).lastPing
         == if (e.OnOpen? && Reaches(c, e.id)) || (e.OnPoll? && Pings(c, e.id, e.now)) then Clock(e.now) else c.lastPing
  {
  }

  lemma {:induction false} PingsAreRecorded(c: Client, es: seq<Event>, before: nat)
    requires c.lastPing == Clock(before)
    ensures Run(c, es).lastPing == Clock(PingedAt(c, es, before)) && Run(c, es).pingInterval == c.pingInterval
  {
    if es != [] {
      PingsAreRecorded(c, es[..|es| - 1], before);
      StepHears(Run(c, es[..|es| - 1]), es[|es| - 1]);
      StepPings(Run(c, es[..|es| - 1]), es[|es| - 1]);
    }
  }

  /** So an open connection is pinged at a poll exactly if the interval has passed since it was
      opened or last pinged. */
  lemma PingsAreSpaced(c: Client, es: seq<Event>, before: nat, i: id, now: nat)
    requires c.lastPing == Clock(before) && Consistent(Run(c, es))
    requires Run(c, es).state == Connected && Run(c, es).nc == Some(i)
    requires PingedAt(c, es, before) <= now < PingedAt(c, es, before) + WORD
    ensures Pings(Run(c, es), i, now) <==>
            c.pingInterval > 0 && now - PingedAt(c, es, before) >= c.pingInterval
    ensures Step(Run(c, es), OnPoll(i, now)).lastPing
         == if Pings(Run(c, es), i, now) then Clock(now) else Run(c, es).lastPing
  {
    PingsAreRecorded(c, es, before);
    WrappedIsTrue(PingedAt(c, es, before), now);
  }

  // -------------------------------------------------------------------------
  // The client in place
  // -------------------------------------------------------------------------

  class MongooseWebSocketClient {
    var nc: Option<id>
    var state: State
    var hasUrl: bool
    var reconnectInterval: uint32
    var lastReconnectAttempt: uint32
    var reconnectAttemptCount: nat
    var pingInterval: uint32
    var lastPing: uint32
    var staleTimeout: uint32
    var lastRecv: uint32
    var links: map<id, Link>  // the manager's side

    function View(): Client
      reads this
    {
      Client(nc, state, hasUrl, reconnectInterval, lastReconnectAttempt, reconnectAttemptCount,
             pingInterval, lastPing, staleTimeout, lastRecv, links)
    }

    constructor ()
      ensures Consistent(View()) && nc == None && !hasUrl && links == map[]
    {
      nc, state, hasUrl := None, Disconnected, false;
      reconnectInterval, lastReconnectAttempt, reconnectAttemptCount := 5000, 0, 0;
      pingInterval, lastPing, staleTimeout, lastRecv := 15000, 0, 30000, 0;
      links := map[];
    }

    method CleanupConnection()
      modifies this
      ensures View() == Cleaned(old(View()))
    {
      nc := None;
      state := Disconnected;
    }

    method SetLink(i: id, link: Link)
      modifies `links
      ensures links == if i in old(links) then old(links)[i := link] else old(links)
    {
      if i in links {
        links := links[i := link];
      }
    }

    /** Opening a connection, as the manager does it. */
    method WsConnect(opening: Opening) returns (handle: Option<id>)
      modifies this
      ensures opening.Refused? ==> handle == None && View() == old(View())
      ensures opening.Opened? ==>
                handle == Some(opening.id)
                && View() == old(View()).(links := old(links)[opening.id := Link(true, false, false)])
      ensures opening.FailedInside? ==>
                handle == Some(opening.id)
                && View() == Cleaned(old(View())).(links := old(links)[opening.id := Link(false, false, true)])
    {
      match opening
      case Refused =>
        handle := None;
      case Opened(i) =>
        links := links[i := Link(true, false, false)];
        handle := Some(i);
      case FailedInside(i) =>
        links := links[i := Link(true, false, true)];
        OnError(i);
        handle := Some(i);
    }

    method AttemptReconnect(now: nat, opening: Opening)
      modifies this
      ensures View() == DoAttempt(old(View()), now, opening)
    {
      if !hasUrl || (state != Disconnected && state != ErrorState) {
        return;
      }
      var clock := Clock(now);
      var delay := Compute(reconnectInterval, reconnectAttemptCount);
      if lastReconnectAttempt > 0 && Elapsed(clock, lastReconnectAttempt) < delay {
        return;
      }
      lastReconnectAttempt := clock;
      reconnectAttemptCount := reconnectAttemptCount + 1;
      var handle := WsConnect(opening);
      if !(nc.Some? && state == Connected) && handle.Some? {
        nc := handle;
        state := Connecting;
      } else {
        state := Disconnected;
      }
    }

    method Connect(urlGiven: bool, now: nat, opening: Opening) returns (ok: bool)
      modifies this
      ensures View() == DoConnect(old(View()), urlGiven, now, opening)
      ensures ok == (urlGiven && nc.Some?)
    {
      if !urlGiven {
        return false;
      }
      if nc.Some? {
        var i := nc.value;
        if i in links {
          SetLink(i, links[i].(dispatches := false, closing := true));
        }
        CleanupConnection();
      }
      hasUrl := true;
      reconnectAttemptCount := 0;
      lastReconnectAttempt := 0;
      AttemptReconnect(now, opening);
      return nc.Some?;
    }

    method Disconnect()
      modifies this
      ensures View() == DoDisconnect(old(View()))
    {
      if nc.Some? {
        state := Closing;
        if nc.value in links {
          SetLink(nc.value, links[nc.value].(draining := true));
        }
      }
    }

    method Loop(now: nat, opening: Opening)
      modifies this
      ensures View() == DoLoop(old(View()), now, opening)
    {
      if (state == Disconnected || state == ErrorState) && hasUrl && reconnectInterval > 0 {
        AttemptReconnect(now, opening);
      }
    }

    method OnPoll(now: nat)
      modifies this
      ensures View() == Polled(old(View()), now)
    {
      if state == Connected && pingInterval > 0 {
        if Elapsed(Clock(now), lastPing) >= pingInterval {
          if nc.Some? {
            lastPing := Clock(now);
          }
        }
      }
      if state == Connected && staleTimeout > 0 && Elapsed(Clock(now), lastRecv) > staleTimeout {
        Disconnect();
      }
    }

    method OnError(i: id)
      requires i in links
      modifies this
      ensures View() == Errored(old(View()), i)
    {
      links := links[i := links[i].(closing := true)];
      state := ErrorState;
      links := links[i := links[i].(dispatches := false)];
      CleanupConnection();
    }

    method OnClose(i: id)
      modifies this
      ensures View() == Cleaned(old(View()))
    {
      if nc == Some(i) {
        nc := None;
      }
      CleanupConnection();
    }

    /** One call or event, dispatched as the manager does. */
    method Handle(e: Event)
      modifies this
      ensures View() == Step(old(View()), e)
    {
      match e
      case Connect(given, now, opening) =>
        var ok := Connect(given, now, opening);
      case Loop(now, opening) =>
        Loop(now, opening);
      case Disconnect =>
        Disconnect();
      case SetInterval(ms) =>
        reconnectInterval := ms;
      case OnConnect(i) =>
        if i in links && links[i].dispatches {
          state := Connecting;
        }
      case OnPoll(i, now) =>
        if i in links && links[i].dispatches {
          OnPoll(now);
        }
      case OnError(i) =>
        if i in links && links[i].dispatches {
          OnError(i);
        }
      case OnClose(i) =>
        if i in links && links[i].dispatches {
          OnClose(i);
        }
        links := links - {i};
      case OnOpen(i, now) =>
        if i in links && links[i].dispatches {
          state := Connected;
          lastRecv := Clock(now);
          lastPing := lastRecv;
          reconnectAttemptCount := 0;
        }
      case OnMessage(i, now) =>
        if i in links && links[i].dispatches {
          lastRecv := Clock(now);
        }
      case OnControl(i, now, isClose) =>
        if i in links && links[i].dispatches {
          lastRecv := Clock(now);
          if isClose {
            state := Closing;
          }
        }
    }

    /** Any run, in place. */
    method RunAll(es: seq<Event>)
      requires Consistent(View()) && FreshRun(View(), es) && !FailsInside(View(), es)
      modifies this
      ensures View() == Run(old(View()), es)
      ensures Consistent(View())
    {
      var i := 0;
      while i < |es|
        invariant 0 <= i <= |es|
        invariant View() == Run(old(View()), es[..i])
      {
        Handle(es[i]);
        assert es[..i + 1][..i] == es[..i];
        i := i + 1;
      }
      assert es[..i] == es;
      RunsStayConsistent(old(View()), es);
    }
  }
}
