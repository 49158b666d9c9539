/** The manager's resolver socket and the lookups in flight: what happens when the socket
    is retired, and afterwards.
 */
module DnsResolver {
  import opened Wrappers

  type url = string

  type id = nat

  /** One connection of the manager; `answers` says that closing it runs the resolver's
      close handler (pfn is still dns_cb). */
  datatype Conn = Conn(id: id, resolving: bool, closing: bool, answers: bool)

  datatype Socket = Socket(id: id, target: url)

  /** `lookups` lists the connections that wait for the resolver, `local` those that wait for
      multicast DNS; `errored` is every error event delivered so far. */
  datatype Mgr = Mgr(conns: seq<Conn>, lookups: seq<id>, local: seq<id>, socket: Option<Socket>,
                     nextId: nat, errored: seq<id>)

  predicate DistinctIds(conns: seq<Conn>) {
    forall i, j | 0 <= i < j < |conns| :: conns[i].id != conns[j].id
  }

  predicate Resolving(conns: seq<Conn>, i: id) {
    exists c :: c in conns && c.id == i && c.resolving
  }

  predicate Answering(conns: seq<Conn>, i: id) {
    exists c :: c in conns && c.id == i && c.answers
  }

  predicate WellFormed(m: Mgr) {
    && DistinctIds(m.conns)
    && (forall c | c in m.conns :: c.id < m.nextId && !(c.answers && c.resolving))
    && (forall c | c in m.conns && c.answers :: m.socket.Some? && m.socket.value.id == c.id)
    && (m.socket.Some? ==> Answering(m.conns, m.socket.value.id))
    && (forall i | i in m.lookups :: Resolving(m.conns, i))
    && (forall i | i in m.local :: Resolving(m.conns, i))
  }

  function Without(ids: seq<id>, i: id): (r: seq<id>)
    ensures forall x :: x in r <==> x in ids && x != i
  {
    if ids == [] then [] else
      (if ids[0] == i then [] else [ids[0]]) + Without(ids[1..], i)
  }

  function Aborted(conns: seq<Conn>, victims: set<id>): (r: seq<Conn>)
    ensures |r| == |conns|
  {
    seq(|conns|, k requires 0 <= k < |conns| =>
      conns[k].(closing := conns[k].closing || conns[k].id in victims))
  }

  function Named(conns: seq<Conn>, ids: seq<id>): seq<Conn> {
    Aborted(conns, set i | i in ids)
  }

  // -------------------------------------------------------------------------
  // Later runs
  // -------------------------------------------------------------------------

  datatype Event =
    | Start(target: url)        // a lookup starts; opens a resolver socket if there is none
    | StartLocal                // a lookup by multicast DNS starts
    | Answer(i: id)             // the lookup of connection i is answered
    | Fail(i: id)               // connection i gets an error event
    | Abort(i: id)              // the application aborts connection i
    | Close(i: id)              // the deferred close of connection i

  function Update(conns: seq<Conn>, i: id, resolving: bool): (r: seq<Conn>)
    ensures |r| == |conns|
  {
    seq(|conns|, k requires 0 <= k < |conns| =>
      if conns[k].id == i then conns[k].(resolving := resolving) else conns[k])
  }

  function Drop(conns: seq<Conn>, i: id): (r: seq<Conn>)
    ensures forall c :: c in r <==> c in conns && c.id != i
  {
    if conns == [] then [] else
      (if conns[0].id == i then [] else [conns[0]]) + Drop(conns[1..], i)
  }

  /** `mg_close_conn`: the connection's own lookups go, then its close handler runs, which
      for a resolver socket errors every lookup of the manager. */
  function Closed(m: Mgr, i: id): Mgr {
    var lookups, rest := Without(m.lookups, i), Drop(m.conns, i);
    var fails := if Answering(m.conns, i) then lookups else [];
    Mgr(Named(rest, fails), lookups, Without(m.local, i),
        if m.socket.Some? && m.socket.value.id == i then None else m.socket,
        m.nextId, m.errored + fails)
  }

  function Step(m: Mgr, e: Event): Mgr {
    match e
    case Start(target) =>
      var n := m.(conns := [Conn(m.nextId, true, false, false)] + m.conns, lookups := [m.nextId] + m.lookups,
                  nextId := m.nextId + 1);
      if n.socket.Some? then n else
        n.(conns := [Conn(n.nextId, false, false, true)] + n.conns, socket := Some(Socket(n.nextId, target)),
           nextId := n.nextId + 1)
    case StartLocal =>
      m.(conns := [Conn(m.nextId, true, false, false)] + m.conns, local := [m.nextId] + m.local,
         nextId := m.nextId + 1)
    case Answer(i) =>
      m.(conns := Update(m.conns, i, false), lookups := Without(m.lookups, i), local := Without(m.local, i))
    case Fail(i) => m.(conns := Aborted(m.conns, {i}), errored := m.errored + [i])
    case Abort(i) => m.(conns := Aborted(m.conns, {i}))
    case Close(i) => Closed(m, i)
  }

  function Run(m: Mgr, es: seq<Event>): Mgr {
    if es == [] then m else Step(Run(m, es[..|es| - 1]), es[|es| - 1])
  }

  lemma {:induction false} DropStaysDistinct(conns: seq<Conn>, i: id)
    requires DistinctIds(conns)
    ensures DistinctIds(Drop(conns, i))
  {
    if conns != [] {
      assert forall k | 0 <= k < |conns| - 1 :: conns[1..][k] == conns[k + 1];
      DropStaysDistinct(conns[1..], i);
      var rest := Drop(conns[1..], i);
      forall k | 0 <= k < |rest| ensures rest[k].id != conns[0].id {
        assert rest[k] in rest;
        var j :| 0 <= j < |conns[1..]| && conns[1..][j] == rest[k];
      }
    }
  }

  /** Changing flags in place keeps who answers, and keeps waiting whoever it does not settle. */
  lemma SameConnections(m: Mgr, n: Mgr, settled: set<id>)
    requires WellFormed(m) && n.socket == m.socket && n.nextId == m.nextId && |n.conns| == |m.conns|
    requires forall k | 0 <= k < |m.conns| ::
               && n.conns[k].id == m.conns[k].id && n.conns[k].answers == m.conns[k].answers
               && (n.conns[k].resolving == m.conns[k].resolving || (m.conns[k].id in settled && !n.conns[k].resolving))
    requires forall i | i in n.lookups :: i in m.lookups && i !in settled
    requires forall i | i in n.local :: i in m.local && i !in settled
    ensures WellFormed(n)
  {
    forall c | c in n.conns
      ensures c.id < n.nextId && !(c.answers && c.resolving)
      ensures c.answers ==> n.socket.Some? && n.socket.value.id == c.id
    {
      var k :| 0 <= k < |n.conns| && n.conns[k] == c;
      assert m.conns[k] in m.conns;
    }
    if n.socket.Some? {
      var c :| c in m.conns && c.id == m.socket.value.id && c.answers;
      var k :| 0 <= k < |m.conns| && m.conns[k] == c;
      assert n.conns[k] in n.conns;
    }
    forall i | i in n.lookups || i in n.local ensures Resolving(n.conns, i) {
      assert Resolving(m.conns, i);
      var c :| c in m.conns && c.id == i && c.resolving;
      var k :| 0 <= k < |m.conns| && m.conns[k] == c;
      assert n.conns[k] in n.conns;
    }
  }

  lemma CloseKeepsWellFormed(m: Mgr, i: id)
    requires WellFormed(m)
    ensures WellFormed(Closed(m, i))
  {
    var rest := Drop(m.conns, i);
    DropStaysDistinct(m.conns, i);
    var socket := if m.socket.Some? && m.socket.value.id == i then None else m.socket;
    var n := m.(conns := rest, lookups := Without(m.lookups, i), local := Without(m.local, i), socket := socket);
    if socket.Some? {
      var c :| c in m.conns && c.id == socket.value.id && c.answers;
      assert c in rest;
    }
    forall x | x in n.lookups || x in n.local ensures Resolving(rest, x) {
      assert Resolving(m.conns, x);
      var c :| c in m.conns && c.id == x && c.resolving;
      assert c in rest;
    }
    SameConnections(n, Closed(m, i), {});
  }

  lemma StartKeepsWellFormed(m: Mgr, c: Conn)
    requires WellFormed(m) && c == Conn(m.nextId, true, false, false)
    ensures WellFormed(m.(conns := [c] + m.conns, lookups := [m.nextId] + m.lookups, nextId := m.nextId + 1))
    ensures WellFormed(m.(conns := [c] + m.conns, local := [m.nextId] + m.local, nextId := m.nextId + 1))
  {
    Prepend(m.conns, c, m.nextId);
    forall i | i in m.lookups || i in m.local ensures Resolving([c] + m.conns, i) {
      assert Resolving(m.conns, i);
      var d :| d in m.conns && d.id == i && d.resolving;
      assert d in [c] + m.conns;
    }
    assert c in [c] + m.conns;
    if m.socket.Some? {
      var d :| d in m.conns && d.id == m.socket.value.id && d.answers;
      assert d in [c] + m.conns;
    }
  }

  lemma Prepend(conns: seq<Conn>, c: Conn, next: nat)
    requires DistinctIds(conns) && c.id == next && forall d | d in conns :: d.id < next
    ensures DistinctIds([c] + conns)
  {
    var all := [c] + conns;
    forall a, b | 0 <= a < b < |all| ensures all[a].id != all[b].id {
      assert all[b] == conns[b - 1] && conns[b - 1] in conns;
    }
  }

  lemma OpenSocketKeepsWellFormed(m: Mgr, target: url, c: Conn)
    requires WellFormed(m) && m.socket.None? && c == Conn(m.nextId, false, false, true)
    ensures WellFormed(m.(conns := [c] + m.conns, socket := Some(Socket(m.nextId, target)), nextId := m.nextId + 1))
  {
    Prepend(m.conns, c, m.nextId);
    assert c in [c] + m.conns;
    forall i | i in m.lookups || i in m.local ensures Resolving([c] + m.conns, i) {
      assert Resolving(m.conns, i);
      var d :| d in m.conns && d.id == i && d.resolving;
      assert d in [c] + m.conns;
    }
  }

  lemma StepKeepsWellFormed(m: Mgr, e: Event)
    requires WellFormed(m)
    ensures WellFormed(Step(m, e))
  {
    match e
    case Start(target) =>
      var c := Conn(m.nextId, true, false, false);
      StartKeepsWellFormed(m, c);
      var n := m.(conns := [c] + m.conns, lookups := [m.nextId] + m.lookups, nextId := m.nextId + 1);
      if n.socket.None? {
        OpenSocketKeepsWellFormed(n, target, Conn(n.nextId, false, false, true));
      }
    case StartLocal => StartKeepsWellFormed(m, Conn(m.nextId, true, false, false));
    case Answer(i) => SameConnections(m, Step(m, e), {i});
    case Fail(i) => SameConnections(m, Step(m, e), {});
    case Abort(i) => SameConnections(m, Step(m, e), {});
    case Close(i) => CloseKeepsWellFormed(m, i);
  }

  const EMPTY := Mgr([], [], [], None, 0, [])

  lemma {:induction false} EveryRunIsWellFormed(es: seq<Event>)
    ensures WellFormed(Run(EMPTY, es))
  {
    if es != [] {
      EveryRunIsWellFormed(es[..|es| - 1]);
      StepKeepsWellFormed(Run(EMPTY, es[..|es| - 1]), es[|es| - 1]);
    }
  }

  // -------------------------------------------------------------------------
  // What an event does to the lookups and the connections
  // -------------------------------------------------------------------------

  /** A lookup waits from its start until it is answered or its connection closed. */
  lemma StepOutstanding(m: Mgr, e: Event, x: id)
    ensures x in Step(m, e).lookups <==>
            (x in m.lookups && e != Answer(x) && e != Close(x)) || (e.Start? && x == m.nextId)
    ensures x in Step(m, e).local <==>
            (x in m.local && e != Answer(x) && e != Close(x)) || (e.StartLocal? && x == m.nextId)
  {
  }

  /** Errors go to a connection that fails, and on the close of an attached socket to every
      lookup but its own. */
  lemma StepErrors(m: Mgr, e: Event, x: id)
    ensures m.errored <= Step(m, e).errored
    ensures x in Step(m, e).errored[|m.errored|..] <==>
            e == Fail(x) || (e.Close? && Answering(m.conns, e.i) && x in m.lookups && x != e.i)
  {
    var n := Step(m, e);
    if e.Close? {
      var fails := if Answering(m.conns, e.i) then Without(m.lookups, e.i) else [];
      assert (m.errored + fails)[|m.errored|..] == fails;
    } else if e.Fail? {
      assert (m.errored + [e.i])[|m.errored|..] == [e.i];
    }
  }

  /** A connection stays until it is closed; it is marked for closing by an abort or an error,
      stops resolving when answered, and keeps its handler. */
  lemma StepKeepsConnection(m: Mgr, e: Event, c: Conn)
    requires c in m.conns && e != Close(c.id)
    ensures
      var errors := Step(m, e).errored[|m.errored|..];
      c.(closing := c.closing || e == Abort(c.id) || c.id in errors,
         resolving := c.resolving && e != Answer(c.id)) in Step(m, e).conns
  {
    var n := Step(m, e);
    StepErrors(m, e, c.id);
    match e
    case Close(i) =>
      assert c in Drop(m.conns, i);
      MarkedIsThere(Drop(m.conns, i), if Answering(m.conns, i) then Without(m.lookups, i) else [], c);
    case Answer(i) =>
      var k :| 0 <= k < |m.conns| && m.conns[k] == c;
      assert n.conns[k] == if c.id == i then c.(resolving := false) else c;
    case Fail(i) =>
      var k :| 0 <= k < |m.conns| && m.conns[k] == c;
      assert n.conns[k] == c.(closing := c.closing || c.id in {i});
    case Abort(i) =>
      var k :| 0 <= k < |m.conns| && m.conns[k] == c;
      assert n.conns[k] == c.(closing := c.closing || c.id in {i});
    case Start(_) =>
    case StartLocal =>
  }

  lemma MarkedIsThere(conns: seq<Conn>, ids: seq<id>, c: Conn)
    requires c in conns
    ensures c.(closing := c.closing || c.id in ids) in Named(conns, ids)
  {
    var k :| 0 <= k < |conns| && conns[k] == c;
    assert Named(conns, ids)[k] == c.(closing := c.closing || c.id in ids);
  }

  /** No connection comes from anywhere but there and a start, which makes one that resolves and,
      if there was no socket, one that answers. */
  lemma StepMakesConnection(m: Mgr, e: Event, d: Conn)
    requires d in Step(m, e).conns
    ensures
      || (exists c :: c in m.conns && c.id == d.id && e != Close(c.id))
      || (d == Conn(m.nextId, true, false, false) && (e.Start? || e.StartLocal?))
      || (d == Conn(m.nextId + 1, false, false, true) && e.Start? && m.socket.None?)
  {
    var n := Step(m, e);
    match e
    case Close(i) =>
      var k :| 0 <= k < |n.conns| && n.conns[k] == d;
      assert Drop(m.conns, i)[k] in Drop(m.conns, i);
    case Answer(_) =>
      var k :| 0 <= k < |n.conns| && n.conns[k] == d;
      assert m.conns[k] in m.conns;
    case Fail(_) =>
      var k :| 0 <= k < |n.conns| && n.conns[k] == d;
      assert m.conns[k] in m.conns;
    case Abort(_) =>
      var k :| 0 <= k < |n.conns| && n.conns[k] == d;
      assert m.conns[k] in m.conns;
    case Start(_) =>
    case StartLocal =>
  }

  /** A start that finds no socket opens one to the server it was given; only its close ends it. */
  lemma StepSocket(m: Mgr, e: Event)
    ensures
      var s := Step(m, e).socket;
      match m.socket
      case None => s == if e.Start? then Some(Socket(m.nextId + 1, e.target)) else None
      case Some(socket) => s == if e == Close(socket.id) then None else Some(socket)
    ensures e.Start? ==> exists c :: c in Step(m, e).conns && c.id == m.nextId && c.resolving
    ensures e.Start? && m.socket.None? ==> Answering(Step(m, e).conns, m.nextId + 1)
    ensures e.StartLocal? ==> Resolving(Step(m, e).conns, m.nextId)
  {
    var a, b := Conn(m.nextId, true, false, false), Conn(m.nextId + 1, false, false, true);
    if e.Start? {
      assert a in Step(m, e).conns;
      assert m.socket.None? ==> b in Step(m, e).conns;
    } else if e.StartLocal? {
      assert a in Step(m, e).conns;
    }
  }

  /** Whatever connection has that number is to be closed, and closing it does nothing more. */
  predicate Dying(conns: seq<Conn>, r: id) {
    forall c | c in conns && c.id == r :: c.closing && !c.answers
  }

  /** The socket was retired: it is known to the manager at most as a connection about to be
      closed whose close does nothing, and its number is never given out again. */
  predicate Retired(m: Mgr, r: id) {
    && r < m.nextId
    && Dying(m.conns, r)
    && (m.socket.Some? ==> m.socket.value.id != r)
  }

  lemma RetiredStep(m: Mgr, e: Event, r: id)
    requires Retired(m, r)
    ensures Retired(Step(m, e), r)
  {
    var n := Step(m, e);
    match e
    case Close(i) =>
      assert Dying(Drop(m.conns, i), r);
      StaysDying(Drop(m.conns, i), n.conns, r);
    case Answer(_) => StaysDying(m.conns, n.conns, r);
    case Fail(_) => StaysDying(m.conns, n.conns, r);
    case Abort(_) => StaysDying(m.conns, n.conns, r);
    case Start(_) =>
      assert forall c | c in n.conns :: c in m.conns || c.id >= m.nextId;
    case StartLocal =>
      assert forall c | c in n.conns :: c in m.conns || c.id >= m.nextId;
  }

  lemma StaysDying(before: seq<Conn>, after: seq<Conn>, r: id)
    requires |before| == |after| && Dying(before, r)
    requires forall k | 0 <= k < |before| ::
               && before[k].id == after[k].id && before[k].answers == after[k].answers
               && (before[k].closing ==> after[k].closing)
    ensures Dying(after, r)
  {
    forall c | c in after && c.id == r ensures c.closing && !c.answers {
      var k :| 0 <= k < |after| && after[k] == c;
      assert before[k] in before;
    }
  }

  /** Why the socket has to be detached: the close of one that still answers errors every
      lookup in the manager, whichever socket carries it. */
  lemma AttachedCloseFailsEveryLookup(m: Mgr, r: id)
    requires Answering(m.conns, r) && r !in m.lookups
    ensures Step(m, Close(r)).errored == m.errored + Without(m.lookups, r)
    ensures forall i :: i in Step(m, Close(r)).errored[|m.errored|..] <==> i in m.lookups
  {
    var e := Step(m, Close(r)).errored;
    assert e[|m.errored|..] == Without(m.lookups, r);
  }

  // -------------------------------------------------------------------------
  // Retiring the socket
  // -------------------------------------------------------------------------

  /** The handlers the application runs on an error: which connections each aborts. */
  type Handlers = map<id, set<id>>

  function Victims(h: Handlers, i: id): set<id> {
    if i in h then h[i] else {}
  }

  /** Some connection errored in the walk had a handler that aborted `i`. */
  predicate AbortedBy(h: Handlers, es: seq<id>, i: id) {
    exists k | 0 <= k < |es| :: i in Victims(h, es[k])
  }

  /** Outstanding at entry, and not closing yet. */
  predicate Open(c: Conn) {
    c.resolving && !c.closing
  }

  /** The connections after a walk that errored `es`, in order. */
  ghost predicate Walked(before: seq<Conn>, h: Handlers, es: seq<id>, after: seq<Conn>) {
    && |after| == |before|
    && forall k | 0 <= k < |before| :: after[k] ==
         before[k].(closing := before[k].closing || before[k].id in es || AbortedBy(h, es, before[k].id))
  }

  /** Each error went to a different connection, which was outstanding and not yet closing. */
  ghost predicate OnceEach(conns: seq<Conn>, r: id, es: seq<id>) {
    && (forall a, b | 0 <= a < b < |es| :: es[a] != es[b])
    && (forall i | i in es :: i != r && exists k | 0 <= k < |conns| :: conns[k].id == i && Open(conns[k]))
  }

  /** The first `n` connections are settled: none of them waits any more, and each that was
      open has failed, unless the handler of one that failed aborted it first. */
  ghost predicate Settled(conns: seq<Conn>, n: nat, h: Handlers, r: id, es: seq<id>, lookups: seq<id>, local: seq<id>)
    requires n <= |conns|
  {
    forall k | 0 <= k < n && conns[k].resolving && conns[k].id != r ::
      && conns[k].id !in lookups && conns[k].id !in local
      && (!conns[k].closing ==> conns[k].id in es || AbortedBy(h, es, conns[k].id))
  }

  ghost predicate OnlyFewer(before: seq<id>, after: seq<id>) {
    forall i | i in after :: i in before
  }

  function Detached(conns: seq<Conn>, r: id): (d: seq<Conn>)
    ensures |d| == |conns|
  {
    seq(|conns|, k requires 0 <= k < |conns| =>
      if conns[k].id == r then conns[k].(closing := true, answers := false) else conns[k])
  }

  /** What holds when `closeResolver` returns, given the state before it. */
  ghost predicate HandedOver(m: Mgr, h: Handlers, n: Mgr)
    requires m.socket.Some?
  {
    var r := m.socket.value.id;
    && n.socket == None && n.nextId == m.nextId && m.errored <= n.errored
    && var es := n.errored[|m.errored|..];
    && OnceEach(m.conns, r, es)
    && Settled(m.conns, |m.conns|, h, r, es, n.lookups, n.local)
    && OnlyFewer(m.lookups, n.lookups) && OnlyFewer(m.local, n.local)
    && exists walked :: Walked(m.conns, h, es, walked) && n.conns == Detached(walked, r)
  }

  lemma WaiterIsSettled(m: Mgr, h: Handlers, r: id, es: seq<id>, lookups: seq<id>, local: seq<id>, i: id)
    requires WellFormed(m) && m.socket.Some? && r == m.socket.value.id
    requires Settled(m.conns, |m.conns|, h, r, es, lookups, local)
    requires i in m.lookups || i in m.local
    ensures i !in lookups && i !in local
  {
    assert Resolving(m.conns, i);
    var c :| c in m.conns && c.id == i && c.resolving;
    var k :| 0 <= k < |m.conns| && m.conns[k] == c;
    SocketNeverResolves(m, k);
  }

  lemma NothingWaits(m: Mgr, h: Handlers, r: id, es: seq<id>, lookups: seq<id>, local: seq<id>)
    requires WellFormed(m) && m.socket.Some? && r == m.socket.value.id
    requires Settled(m.conns, |m.conns|, h, r, es, lookups, local)
    requires OnlyFewer(m.lookups, lookups) && OnlyFewer(m.local, local)
    ensures lookups == [] && local == []
  {
    assert lookups != [] ==> lookups[0] in lookups;
    assert local != [] ==> local[0] in local;
    forall i | i in m.lookups || i in m.local ensures i !in lookups && i !in local {
      WaiterIsSettled(m, h, r, es, lookups, local, i);
    }
  }

  lemma SocketNeverResolves(m: Mgr, k: nat)
    requires WellFormed(m) && m.socket.Some? && k < |m.conns| && m.conns[k].resolving
    ensures m.conns[k].id != m.socket.value.id
  {
    var s :| s in m.conns && s.id == m.socket.value.id && s.answers;
    var j :| 0 <= j < |m.conns| && m.conns[j] == s;
  }

  /** What the hand-over does to the connections, one by one: the old socket is to be closed and
      detached; no other loses its handler or stops resolving; and just those that failed, or that
      the handler of one that failed aborts, are to be closed beside those that were. */
  lemma HandedOverConnections(m: Mgr, h: Handlers, n: Mgr, k: nat)
    requires m.socket.Some? && HandedOver(m, h, n) && k < |m.conns|
    ensures |n.conns| == |m.conns| && n.conns[k].id == m.conns[k].id && n.conns[k].resolving == m.conns[k].resolving
    ensures m.conns[k].id == m.socket.value.id ==> n.conns[k].closing && !n.conns[k].answers
    ensures m.conns[k].id != m.socket.value.id ==> n.conns[k].answers == m.conns[k].answers
    ensures n.conns[k].closing <==>
              || m.conns[k].closing || m.conns[k].id == m.socket.value.id
              || m.conns[k].id in n.errored[|m.errored|..]
              || exists i :: i in n.errored[|m.errored|..] && i in h && m.conns[k].id in h[i]
  {
    var r, es := m.socket.value.id, n.errored[|m.errored|..];
    assert AbortedBy(h, es, m.conns[k].id) <==> exists i :: i in es && i in h && m.conns[k].id in h[i];
    var walked :| Walked(m.conns, h, es, walked) && n.conns == Detached(walked, r);
  }

  lemma HandedOverKeepsWellFormed(m: Mgr, h: Handlers, n: Mgr)
    requires WellFormed(m) && m.socket.Some? && HandedOver(m, h, n) && n.lookups == [] && n.local == []
    ensures WellFormed(n) && Retired(n, m.socket.value.id)
  {
    var r := m.socket.value.id;
    forall c | c in n.conns ensures c.id < m.nextId && !c.answers && (c.id == r ==> c.closing) {
      var k :| 0 <= k < |n.conns| && n.conns[k] == c;
      HandedOverLength(m, h, n);
      HandedOverConnections(m, h, n, k);
      assert m.conns[k] in m.conns;
    }
    HandedOverIds(m, h, n);
    assert r < m.nextId by {
      var s :| s in m.conns && s.id == r && s.answers;
    }
  }

  lemma HandedOverLength(m: Mgr, h: Handlers, n: Mgr)
    requires m.socket.Some? && HandedOver(m, h, n)
    ensures |n.conns| == |m.conns|
  {
  }

  lemma HandedOverIds(m: Mgr, h: Handlers, n: Mgr)
    requires m.socket.Some? && HandedOver(m, h, n) && DistinctIds(m.conns)
    ensures DistinctIds(n.conns)
  {
    HandedOverLength(m, h, n);
    forall i, j | 0 <= i < j < |n.conns| ensures n.conns[i].id != n.conns[j].id {
      HandedOverConnections(m, h, n, i);
      HandedOverConnections(m, h, n, j);
    }
  }

  /** Nothing that was waiting is still waiting; the socket is retired for good; no connection
      failed twice, none failed that was closing already; and if no handler interferes, exactly
      the open ones failed. */
  lemma HandOverFailsEachOnce(m: Mgr, h: Handlers, n: Mgr)
    requires WellFormed(m) && m.socket.Some? && HandedOver(m, h, n)
    ensures n.lookups == [] && n.local == [] && WellFormed(n) && Retired(n, m.socket.value.id)
    ensures OnceEach(m.conns, m.socket.value.id, n.errored[|m.errored|..])
    ensures (forall i :: Victims(h, i) == {}) ==>
              forall k | 0 <= k < |m.conns| :: m.conns[k].id in n.errored[|m.errored|..] <==> Open(m.conns[k])
  {
    var r, es := m.socket.value.id, n.errored[|m.errored|..];
    NothingWaits(m, h, r, es, n.lookups, n.local);
    HandedOverKeepsWellFormed(m, h, n);
    if forall i :: Victims(h, i) == {} {
      forall k | 0 <= k < |m.conns| ensures m.conns[k].id in es <==> Open(m.conns[k]) {
        if Open(m.conns[k]) {
          SocketNeverResolves(m, k);
        }
      }
    }
  }

  /** Lookups by multicast DNS never used the retired server, and fail all the same. */
  lemma LocalLookupsFailToo(m: Mgr, h: Handlers, n: Mgr, k: nat)
    requires WellFormed(m) && m.socket.Some? && HandedOver(m, h, n) && (forall i :: Victims(h, i) == {})
    requires k < |m.conns| && m.conns[k].id in m.local && m.conns[k].id !in m.lookups && !m.conns[k].closing
    ensures m.conns[k].id in n.errored[|m.errored|..]
  {
    assert Resolving(m.conns, m.conns[k].id);
    var c :| c in m.conns && c.id == m.conns[k].id && c.resolving;
    var j :| 0 <= j < |m.conns| && m.conns[j] == c;
    HandOverFailsEachOnce(m, h, n);
  }

  /** A manager with one lookup by the resolver and one by multicast DNS. */
  lemma OneOfEach(target: url)
    ensures Run(EMPTY, [Start(target), StartLocal])
         == Mgr([Conn(2, true, false, false), Conn(1, false, false, true), Conn(0, true, false, false)],
                [0], [2], Some(Socket(1, target)), 3, [])
  {
    var es := [Start(target), StartLocal];
    assert es[..1] == [Start(target)] && es[..1][..0] == [];
    assert Run(EMPTY, es[..1]) == Step(EMPTY, Start(target));
    assert [] + [0] == [0];
  }

  /** However its socket is retired, the second is errored. */
  lemma LocalLookupExample(target: url, m: Mgr, n: Mgr)
    requires m == Run(EMPTY, [Start(target), StartLocal]) && m.socket.Some? && HandedOver(m, map[], n)
    ensures 2 in m.local && 2 !in m.lookups && 2 in n.errored[|m.errored|..]
  {
    OneOfEach(target);
    EveryRunIsWellFormed([Start(target), StartLocal]);
    LocalLookupsFailToo(m, map[], n, 0);
  }

  /** One more error in the walk. */
  lemma WalkStep(before: seq<Conn>, h: Handlers, r: id, es: seq<id>, now: seq<Conn>, k: nat)
    requires DistinctIds(before) && k < |before| && Walked(before, h, es, now) && OnceEach(before, r, es)
    requires Open(now[k]) && now[k].id != r
    requires forall i | i in es :: exists j | 0 <= j < k :: before[j].id == i
    ensures var i := before[k].id;
            && Walked(before, h, es + [i], Aborted(now, {i} + Victims(h, i)))
            && OnceEach(before, r, es + [i])
            && forall x :: AbortedBy(h, es, x) ==> AbortedBy(h, es + [i], x)
  {
    var i, es' := before[k].id, es + [before[k].id];
    forall x ensures AbortedBy(h, es', x) <==> AbortedBy(h, es, x) || x in Victims(h, i) {
      if a :| 0 <= a < |es| && x in Victims(h, es[a]) {
        assert es'[a] == es[a];
      }
      if x in Victims(h, i) {
        assert x in Victims(h, es'[|es|]);
      }
    }
    assert Open(before[k]);
  }

  /** The walk has passed `k` connections and errored `es`; the manager is now `n`. */
  ghost predicate Walking(m: Mgr, h: Handlers, r: id, es: seq<id>, n: Mgr, k: nat) {
    && k <= |m.conns| && n.socket == m.socket && n.nextId == m.nextId && n.errored == m.errored + es
    && Walked(m.conns, h, es, n.conns) && OnceEach(m.conns, r, es)
    && (forall i | i in es :: exists j | 0 <= j < k :: m.conns[j].id == i)
    && Settled(m.conns, k, h, r, es, n.lookups, n.local)
    && OnlyFewer(m.lookups, n.lookups) && OnlyFewer(m.local, n.local)
  }

  lemma ErrorStep(m: Mgr, h: Handlers, r: id, es: seq<id>, n: Mgr, k: nat)
    requires DistinctIds(m.conns) && Walking(m, h, r, es, n, k) && k < |n.conns|
    requires Open(n.conns[k]) && n.conns[k].id != r
    ensures
      var i := n.conns[k].id;
      var n' := n.(conns := Aborted(n.conns, {i} + Victims(h, i)), errored := n.errored + [i]);
      && Walked(m.conns, h, es + [i], n'.conns) && OnceEach(m.conns, r, es + [i])
      && Settled(m.conns, k, h, r, es + [i], n.lookups, n.local)
      && (forall x | x in es + [i] :: exists j | 0 <= j < k + 1 :: m.conns[j].id == x)
  {
    WalkStep(m.conns, h, r, es, n.conns, k);
    var es' := es + [n.conns[k].id];
    forall x | x in es' ensures exists j | 0 <= j < k + 1 :: m.conns[j].id == x {
      if x !in es {
        assert m.conns[k].id == x;
      }
    }
  }

  lemma CancelStep(m: Mgr, h: Handlers, r: id, es: seq<id>, n: Mgr, k: nat)
    requires k < |m.conns| && Walked(m.conns, h, es, n.conns)
    requires Settled(m.conns, k, h, r, es, n.lookups, n.local)
    requires m.conns[k].id == r || n.conns[k].closing || !m.conns[k].resolving
    ensures
      var i := m.conns[k].id;
      Settled(m.conns, k + 1, h, r, es, Without(n.lookups, i), Without(n.local, i))
    ensures m.conns[k].id == r || !m.conns[k].resolving ==>
              Settled(m.conns, k + 1, h, r, es, n.lookups, n.local)
  {
  }

  class Manager {
    var conns: seq<Conn>
    var lookups: seq<id>
    var local: seq<id>
    var socket: Option<Socket>
    var nextId: nat
    ghost var errored: seq<id>

    ghost function View(): Mgr
      reads this
    {
      Mgr(conns, lookups, local, socket, nextId, errored)
    }

    constructor ()
      ensures View() == Mgr([], [], [], None, 0, [])
    {
      conns, lookups, local, socket, nextId, errored := [], [], [], None, 0, [];
    }

    /** `mg_mgr_init` over whatever was there; numbering goes on. */
    method Reset()
      modifies this
      ensures View() == Mgr([], [], [], None, old(nextId), old(errored))
    {
      conns, lookups, local, socket := [], [], [], None;
    }

    /** `mg_error`, followed by the application's handler. */
    method Error(k: nat, h: Handlers)
      requires k < |conns|
      modifies this
      ensures conns == Aborted(old(conns), {old(conns)[k].id} + Victims(h, old(conns)[k].id))
      ensures errored == old(errored) + [old(conns)[k].id]
      ensures lookups == old(lookups) && local == old(local) && socket == old(socket) && nextId == old(nextId)
    {
      var i := conns[k].id;
      conns := Aborted(conns, {i});
      errored := errored + [i];
      conns := Aborted(conns, Victims(h, i));
    }

    /** `mg_resolve_cancel` */
    method ResolveCancel(i: id)
      modifies `lookups, `local
      ensures lookups == Without(old(lookups), i) && local == Without(old(local), i)
    {
      lookups := Without(lookups, i);
      local := Without(local, i);
    }

    /** One round of the walk over the connection list. */
    method Visit(k: nat, h: Handlers, r: id, ghost m: Mgr, ghost es: seq<id>) returns (ghost es': seq<id>)
      requires DistinctIds(m.conns) && k < |conns| && Walking(m, h, r, es, View(), k)
      modifies this
      ensures Walking(m, h, r, es', View(), k + 1)
    {
      es' := es;
      if conns[k].id == r {
        CancelStep(m, h, r, es, View(), k);
        return;
      }
      if conns[k].resolving && !conns[k].closing {
        ErrorStep(m, h, r, es, View(), k);
        Error(k, h);
        es' := es + [m.conns[k].id];
      }
      CancelStep(m, h, r, es', View(), k);
      if conns[k].closing {
        ResolveCancel(conns[k].id);
      }
    }

    method CloseResolver(h: Handlers)
      requires WellFormed(View())
      modifies this
      ensures old(socket).None? ==> View() == old(View())
      ensures old(socket).Some? ==> HandedOver(old(View()), h, View())
      ensures old(socket).Some? ==> socket.None? && Dying(conns, old(socket).value.id)
    {
      if socket.None? {
        return;
      }
      var r := socket.value.id;
      ghost var m, es := View(), [];
      var k := 0;
      while k < |conns|
        invariant Walking(m, h, r, es, View(), k)
        decreases |m.conns| - k
      {
        es := Visit(k, h, r, m, es);
        k := k + 1;
      }
      ghost var walked := conns;
      conns := Detached(conns, r);
      socket := None;
      assert errored[|m.errored|..] == es;
      assert Dying(conns, r);
    }
  }
}
