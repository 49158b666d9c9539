/** Runs of the manager in which lookups come and go, sockets are retired any number of times
    and the library is started afresh.
 */
module DnsRuns {
  import opened DnsResolver
  import opened Wrappers

  predicate NoRepeats(ids: seq<id>) {
    forall a, b | 0 <= a < b < |ids| :: ids[a] != ids[b]
  }

  /** Well formed, and no connection waits twice. */
  predicate Sane(m: Mgr) {
    WellFormed(m) && NoRepeats(m.lookups)
  }

  /** What an application does from a handler: it aborts connections. */
  function AbortAll(m: Mgr, victims: set<id>): Mgr {
    m.(conns := Aborted(m.conns, victims))
  }

  /** `mg_mgr_init` over whatever was there; numbering goes on. */
  function Restarted(m: Mgr): Mgr {
    Mgr([], [], [], None, m.nextId, m.errored)
  }

  /** One step: an event of a lookup, a hand-over, a handler, or a fresh start. */
  ghost predicate Next(m: Mgr, n: Mgr) {
    || (exists e: Event :: n == Step(m, e))
    || (m.socket.Some? && exists h: Handlers :: HandedOver(m, h, n))
    || (exists victims: set<id> :: n == AbortAll(m, victims))
    || n == Restarted(m)
  }

  ghost predicate Chain(ms: seq<Mgr>) {
    ms != [] && forall k | 0 <= k < |ms| - 1 :: Next(ms[k], ms[k + 1])
  }

  /** Some run goes from `m` to `n`. */
  ghost predicate Leads(m: Mgr, n: Mgr) {
    exists ms :: Chain(ms) && ms[0] == m && ms[|ms| - 1] == n
  }

  lemma LeadsNowhere(m: Mgr)
    ensures Leads(m, m)
  {
    assert Chain([m]);
  }

  lemma LeadsAtOnce(m: Mgr, n: Mgr)
    requires Next(m, n)
    ensures Leads(m, n)
  {
    assert Chain([m, n]);
  }

  lemma LeadsOn(m: Mgr, n: Mgr, o: Mgr)
    requires Leads(m, n) && Next(n, o)
    ensures Leads(m, o)
  {
    var ms :| Chain(ms) && ms[0] == m && ms[|ms| - 1] == n;
    var all := ms + [o];
    forall k | 0 <= k < |all| - 1 ensures Next(all[k], all[k + 1]) {
      assert k < |ms| - 1 ==> Next(ms[k], ms[k + 1]);
    }
    assert Chain(all) && all[0] == m && all[|all| - 1] == o;
  }

  lemma LeadsThrough(m: Mgr, n: Mgr, o: Mgr)
    requires Leads(m, n) && Leads(n, o)
    ensures Leads(m, o)
  {
    var a :| Chain(a) && a[0] == m && a[|a| - 1] == n;
    var b :| Chain(b) && b[0] == n && b[|b| - 1] == o;
    var all := a + b[1..];
    forall k | 0 <= k < |all| - 1 ensures Next(all[k], all[k + 1]) {
      if k < |a| - 1 {
        assert Next(a[k], a[k + 1]);
      } else {
        assert Next(b[k - |a| + 1], b[k - |a| + 2]);
      }
    }
    assert Chain(all) && all[0] == m && all[|all| - 1] == o;
  }

  // -------------------------------------------------------------------------
  // What every run keeps
  // -------------------------------------------------------------------------

  lemma {:induction false} WithoutStaysDistinct(ids: seq<id>, i: id)
    requires NoRepeats(ids)
    ensures NoRepeats(Without(ids, i))
  {
    if ids != [] {
      var rest := ids[1..];
      assert forall a | 0 <= a < |rest| :: rest[a] == ids[a + 1];
      WithoutStaysDistinct(rest, i);
      var w := Without(rest, i);
      assert forall a | 0 <= a < |w| :: w[a] in w;
    }
  }

  lemma EventKeepsPending(m: Mgr, e: Event)
    requires Sane(m)
    ensures NoRepeats(Step(m, e).lookups)
  {
    match e
    case Start(_) =>
      forall a | 0 <= a < |m.lookups| ensures m.lookups[a] < m.nextId {
        assert m.lookups[a] in m.lookups && Resolving(m.conns, m.lookups[a]);
      }
    case StartLocal =>
    case Answer(i) => WithoutStaysDistinct(m.lookups, i);
    case Fail(_) =>
    case Abort(_) =>
    case Close(i) => WithoutStaysDistinct(m.lookups, i);
  }

  lemma NextKeepsSane(m: Mgr, n: Mgr)
    requires Sane(m) && Next(m, n)
    ensures Sane(n)
  {
    if e: Event :| n == Step(m, e) {
      StepKeepsWellFormed(m, e);
      EventKeepsPending(m, e);
    } else if m.socket.Some? && exists h: Handlers :: HandedOver(m, h, n) {
      var h: Handlers :| HandedOver(m, h, n);
      HandOverFailsEachOnce(m, h, n);
    } else if victims: set<id> :| n == AbortAll(m, victims) {
      SameConnections(m, n, {});
    }
  }

  lemma ChainInit(ms: seq<Mgr>)
    requires Chain(ms) && |ms| > 1
    ensures Chain(ms[..|ms| - 1]) && Next(ms[|ms| - 2], ms[|ms| - 1])
  {
    assert forall k | 0 <= k < |ms| - 2 :: Next(ms[k], ms[k + 1]);
  }

  lemma {:induction false} ChainKeepsSane(ms: seq<Mgr>)
    requires Chain(ms) && Sane(ms[0])
    ensures Sane(ms[|ms| - 1])
  {
    if |ms| > 1 {
      ChainInit(ms);
      ChainKeepsSane(ms[..|ms| - 1]);
      NextKeepsSane(ms[|ms| - 2], ms[|ms| - 1]);
    }
  }

  /** In every run, hand-overs and restarts included, lookups wait on resolving connections, at
      most one socket answers, and no connection waits twice. */
  lemma EveryChainIsSane(m: Mgr)
    requires Leads(EMPTY, m)
    ensures Sane(m)
  {
    var ms :| Chain(ms) && ms[0] == EMPTY && ms[|ms| - 1] == m;
    ChainKeepsSane(ms);
  }

  // -------------------------------------------------------------------------
  // What becomes of a retired socket
  // -------------------------------------------------------------------------

  lemma HandOverKeepsRetired(m: Mgr, h: Handlers, n: Mgr, r: id)
    requires Retired(m, r) && m.socket.Some? && HandedOver(m, h, n)
    ensures Retired(n, r)
  {
    HandedOverLength(m, h, n);
    forall k | 0 <= k < |m.conns|
      ensures n.conns[k].id == m.conns[k].id && (m.conns[k].closing ==> n.conns[k].closing)
      ensures m.conns[k].id == r ==> n.conns[k].answers == m.conns[k].answers
    {
      HandedOverConnections(m, h, n, k);
    }
    forall c | c in n.conns && c.id == r ensures c.closing && !c.answers {
      var k :| 0 <= k < |n.conns| && n.conns[k] == c;
      assert m.conns[k] in m.conns;
    }
  }

  lemma NextKeepsRetired(m: Mgr, n: Mgr, r: id)
    requires Retired(m, r) && Next(m, n)
    ensures Retired(n, r)
  {
    if e: Event :| n == Step(m, e) {
      RetiredStep(m, e, r);
    } else if m.socket.Some? && exists h: Handlers :: HandedOver(m, h, n) {
      var h: Handlers :| HandedOver(m, h, n);
      HandOverKeepsRetired(m, h, n, r);
    } else if victims: set<id> :| n == AbortAll(m, victims) {
      StaysDying(m.conns, n.conns, r);
    }
  }

  lemma {:induction false} ChainKeepsRetired(ms: seq<Mgr>, r: id)
    requires Chain(ms) && Retired(ms[0], r)
    ensures Retired(ms[|ms| - 1], r)
  {
    if |ms| > 1 {
      ChainInit(ms);
      ChainKeepsRetired(ms[..|ms| - 1], r);
      NextKeepsRetired(ms[|ms| - 2], ms[|ms| - 1], r);
    }
  }

  /** Connection `r`, if it is still there, is about to be closed; the close delivers no error,
      cancels no lookup but its own, and leaves the socket alone. */
  predicate Inert(m: Mgr, r: id) {
    var after := Step(m, Close(r));
    && (forall c | c in m.conns && c.id == r :: c.closing)
    && after.errored == m.errored && after.lookups == Without(m.lookups, r) && after.socket == m.socket
  }

  /** In every later run, whatever is retired or started meanwhile, the deferred close of a
      retired socket is inert. */
  lemma DeferredCloseIsInert(m: Mgr, n: Mgr, r: id)
    requires Retired(m, r) && Leads(m, n)
    ensures Retired(n, r) && Inert(n, r)
  {
    var ms :| Chain(ms) && ms[0] == m && ms[|ms| - 1] == n;
    ChainKeepsRetired(ms, r);
  }

  /** So of all the sockets ever retired in a run: each was retired by a hand-over somewhere on
      the way, and none of them can fail a lookup any more. */
  lemma EveryRetiredSocketIsInert(m: Mgr, h: Handlers, n: Mgr, later: Mgr)
    requires Leads(EMPTY, m) && m.socket.Some? && HandedOver(m, h, n) && Leads(n, later)
    ensures Inert(later, m.socket.value.id) && Sane(later)
  {
    EveryChainIsSane(m);
    HandOverFailsEachOnce(m, h, n);
    DeferredCloseIsInert(n, later, m.socket.value.id);
    LeadsOn(EMPTY, m, n);
    LeadsThrough(EMPTY, n, later);
    EveryChainIsSane(later);
  }
}
