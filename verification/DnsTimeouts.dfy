/** The walk in which the resolver times lookups out, with the rotation that an error may set
    off nested inside it.
 */
module DnsTimeouts {
  import opened DnsFailover
  import opened DnsResolver
  import opened DnsRuns
  import opened Wrappers

  const TIMEOUT: string := "DNS timeout"

  /** The entry behind `i`, as a list node points to it. */
  function After(ids: seq<id>, i: id): Option<id> {
    if ids == [] then None
    else if ids[0] != i then After(ids[1..], i)
    else if |ids| > 1 then Some(ids[1]) else None
  }

  lemma {:induction false} AfterAt(ids: seq<id>, k: nat)
    requires NoRepeats(ids) && k < |ids|
    ensures After(ids, ids[k]) == if k + 1 < |ids| then Some(ids[k + 1]) else None
  {
    if k > 0 {
      assert ids[0] != ids[k];
      assert forall a, b | 0 <= a < b < |ids[1..]| :: ids[1..][a] == ids[a + 1] && ids[1..][b] == ids[b + 1];
      AfterAt(ids[1..], k - 1);
    }
  }

  /** A timeout now rotates to another server while a resolver socket is open. */
  predicate Retires(c: Core, now: nat) {
    Rotates(c, Some(TIMEOUT), now) && c.resolver.Some? && c.active != c.table[(c.index + 1) % |c.table|]
  }

  /** Which of the pending entries, in list order, retires the socket by timing out; `telling`
      are those that have expired and whose error the core hears of. */
  function RetiredAt(c: Core, ids: seq<id>, telling: set<id>, now: nat): (k: Option<nat>)
    ensures k.Some? ==> k.value < |ids| && ids[k.value] in telling
    decreases |ids|
  {
    if ids == [] then None
    else if ids[0] in telling && Retires(c, now) then Some(0)
    else
      var later := RetiredAt(if ids[0] in telling then Report(c, Some(TIMEOUT), now) else c, ids[1..], telling, now);
      if later.Some? then Some(later.value + 1) else None
  }

  /** The rotation is nested in the walk with further entries pending. */
  predicate Interrupted(c: Core, ids: seq<id>, telling: set<id>, now: nat) {
    var k := RetiredAt(c, ids, telling, now);
    k.Some? && k.value + 1 < |ids|
  }

  function TimedOut(ids: seq<id>, expired: set<id>): seq<id> {
    if ids == [] then [] else
      TimedOut(ids[..|ids| - 1], expired) + if ids[|ids| - 1] in expired then [ids[|ids| - 1]] else []
  }

  predicate Held(c: Core, now: nat) {
    now > 0 && c.timeout > 0
  }

  /** A rotation holds the next one back, so with a running clock the first timeout decides. */
  lemma {:induction false} OneRotationPerWalk(c: Core, ids: seq<id>, telling: set<id>, now: nat)
    requires Held(c, now) && !Rotates(c, Some(TIMEOUT), now)
    ensures RetiredAt(c, ids, telling, now) == None
    decreases |ids|
  {
    if ids != [] {
      assert Report(c, Some(TIMEOUT), now) == c;
      OneRotationPerWalk(c, ids[1..], telling, now);
    }
  }

  /** With a running clock the walk is interrupted exactly if a rotation is due and some entry
      follows the first one that tells of its timeout. */
  lemma {:induction false} FirstTimeoutDecides(c: Core, ids: seq<id>, telling: set<id>, now: nat)
    requires Held(c, now)
    ensures Interrupted(c, ids, telling, now) <==>
            Retires(c, now) && exists k | 0 <= k < |ids| - 1 :: ids[k] in telling
  {
    if ids != [] {
      var rest := ids[1..];
      assert forall k | 0 <= k < |rest| :: rest[k] == ids[k + 1];
      if ids[0] !in telling {
        FirstTimeoutDecides(c, rest, telling, now);
        if k :| 0 <= k < |ids| - 1 && ids[k] in telling {
          assert rest[k - 1] in telling;
        }
      } else if !Retires(c, now) {
        var d := Report(c, Some(TIMEOUT), now);
        OneRotationPerWalk(d, rest, telling, now);
      }
    }
  }

  /** Two servers set, the library started, and two lookups begun: the one begun last is first
      in the list, and if it times out the walk is interrupted. */
  lemma InterruptedExample(capacity: nat)
    requires capacity >= 2
    ensures
      var ops := [Op.Set([Some("a"), Some("b")]), Op.Begin(None), Op.Resolve];
      var c := DnsFailover.Run(INITIAL, capacity, ops);
      var m := DnsResolver.Run(EMPTY, [Start("a"), Start("a")]);
      && m.lookups == [2, 0] && m.socket == Some(Socket(1, "a")) && c.resolver == Some("a")
      && Interrupted(c, m.lookups, {2}, 5000)
  {
    var c := ConfiguredCore(capacity);
    TwoLookups("a");
    var ids: seq<id> := [2, 0];
    assert ids[0] in {2};
    assert c.active[0] != c.table[1][0];
    FirstTimeoutDecides(c, ids, {2}, 5000);
  }

  lemma TwoLookups(target: url)
    ensures var m := DnsResolver.Run(EMPTY, [Start(target), Start(target)]);
            m.lookups == [2, 0] && m.socket == Some(Socket(1, target))
  {
    var es := [Start(target), Start(target)];
    assert es[..1] == [Start(target)] && es[..1][..0] == [];
    assert DnsResolver.Run(EMPTY, es[..1]) == DnsResolver.Step(EMPTY, Start(target));
    assert [0] + [] == [0] && [2] + [0] == [2, 0];
  }

  lemma ConfiguredCore(capacity: nat) returns (c: Core)
    requires capacity >= 2
    ensures c == DnsFailover.Run(INITIAL, capacity, [Op.Set([Some("a"), Some("b")]), Op.Begin(None), Op.Resolve])
    ensures c == Core(["a", "b"], 0, "a", ActiveBuffer, 0, DEFAULT_TIMEOUT, Some("a"))
  {
    var two: seq<Option<url>> := [Some("a"), Some("b")];
    var ops := [Op.Set(two), Op.Begin(None), Op.Resolve];
    assert ops[..2] == [Op.Set(two), Op.Begin(None)] && ops[..2][..1] == [Op.Set(two)] && ops[..2][..1][..0] == [];
    assert two[1..] == [Some("b")] && two[1..][1..] == [];
    assert Usable(two[1..], capacity - 1) == ["b"];
    assert Usable(two, capacity) == ["a", "b"];
    var c1 := Apply(INITIAL, capacity, ops[0]);
    assert c1 == Core(["a", "b"], 0, "a", ActiveBuffer, 0, 0, None);
    assert DnsFailover.Run(INITIAL, capacity, ops[..2][..1]) == c1;
    assert DnsFailover.Run(INITIAL, capacity, ops[..2]) == Apply(c1, capacity, ops[1]);
    c := DnsFailover.Run(INITIAL, capacity, ops);
  }

  lemma {:induction false} TimedOutIsExact(ids: seq<id>, expired: set<id>, i: id)
    ensures i in TimedOut(ids, expired) <==> i in ids && i in expired
  {
    if ids != [] {
      TimedOutIsExact(ids[..|ids| - 1], expired, i);
      assert ids == ids[..|ids| - 1] + [ids[|ids| - 1]];
    }
  }

  lemma {:induction false} TimedOutOnce(ids: seq<id>, expired: set<id>)
    requires NoRepeats(ids)
    ensures NoRepeats(TimedOut(ids, expired))
  {
    if ids != [] {
      var init, i := ids[..|ids| - 1], ids[|ids| - 1];
      TimedOutOnce(init, expired);
      TimedOutIsExact(init, expired, i);
    }
  }

  predicate Closing(conns: seq<Conn>, i: id) {
    forall c | c in conns && c.id == i :: c.closing
  }

  lemma AbortedStaysClosing(conns: seq<Conn>, victims: set<id>, i: id)
    requires Closing(conns, i) || i in victims
    ensures Closing(Aborted(conns, victims), i)
  {
    var after := Aborted(conns, victims);
    forall c | c in after && c.id == i ensures c.closing {
      var k :| 0 <= k < |after| && after[k] == c;
      assert conns[k] in conns;
    }
  }

  /** What one timeout does to the manager: the error, the hand-over if there is one, and then
      the handler of the connection. */
  ghost predicate Delivered(m: Mgr, i: id, h: Handlers, retires: bool, n: Mgr) {
    var failed := m.(conns := Aborted(m.conns, {i}), errored := m.errored + [i]);
    if retires
    then failed.socket.Some?
         && exists o :: HandedOver(failed, h, o) && n == o.(conns := Aborted(o.conns, Victims(h, i)))
    else n == failed.(conns := Aborted(failed.conns, Victims(h, i)))
  }

  lemma DeliveredLeads(m: Mgr, i: id, h: Handlers, retires: bool, n: Mgr)
    requires Delivered(m, i, h, retires, n)
    ensures Leads(m, n)
  {
    var failed := m.(conns := Aborted(m.conns, {i}), errored := m.errored + [i]);
    assert failed == DnsResolver.Step(m, Fail(i));
    LeadsAtOnce(m, failed);
    if retires {
      var o :| HandedOver(failed, h, o) && n == o.(conns := Aborted(o.conns, Victims(h, i)));
      LeadsOn(m, failed, o);
      assert n == AbortAll(o, Victims(h, i));
      LeadsOn(m, o, n);
    } else {
      assert n == AbortAll(failed, Victims(h, i));
      LeadsOn(m, failed, n);
    }
  }

  /** `mg_error` on a lookup that has expired: the core is told before the application. A
      connection without a handler object tells neither. */
  method TimeOut(core: MongooseCore, i: id, now: nat, h: Handlers, told: bool)
    requires core.Valid() && (!told ==> i !in h)
    modifies core, core.mgr
    ensures core.Valid()
    ensures core.View() == if told then Report(old(core.View()), Some(TIMEOUT), now) else old(core.View())
    ensures Delivered(old(core.mgr.View()), i, h, told && Retires(old(core.View()), now), core.mgr.View())
    ensures Leads(old(core.mgr.View()), core.mgr.View())
  {
    ghost var m := core.mgr.View();
    Flag(core, i);
    ghost var failed := core.mgr.View();
    if told {
      var _ := core.DnsError(Some(TIMEOUT), now, h);
    }
    assert told && Retires(old(core.View()), now) ==> HandedOver(failed, h, core.mgr.View());
    Handle(core, Victims(h, i));
    DeliveredLeads(m, i, h, told && Retires(old(core.View()), now), core.mgr.View());
  }

  /** `mg_error` up to the event. */
  method Flag(core: MongooseCore, i: id)
    requires core.Valid()
    modifies core.mgr
    ensures core.Valid() && core.View() == old(core.View())
    ensures var m := old(core.mgr.View());
            core.mgr.View() == m.(conns := Aborted(m.conns, {i}), errored := m.errored + [i])
  {
    var mgr := core.mgr;
    ghost var m := mgr.View();
    SameConnections(m, m.(conns := Aborted(m.conns, {i})), {});
    mgr.conns := Aborted(mgr.conns, {i});
    mgr.errored := mgr.errored + [i];
  }

  /** The handler of the application. */
  method Handle(core: MongooseCore, victims: set<id>)
    requires core.Valid()
    modifies core.mgr
    ensures core.Valid() && core.View() == old(core.View())
    ensures core.mgr.View() == AbortAll(old(core.mgr.View()), victims)
  {
    var mgr := core.mgr;
    ghost var m := mgr.View();
    SameConnections(m, AbortAll(m, victims), {});
    mgr.conns := Aborted(mgr.conns, victims);
  }

  // -------------------------------------------------------------------------
  // The walk
  // -------------------------------------------------------------------------

  /** Up to entry `p` nothing has been retired: exactly the expired ones so far have been
      errored, and are closing; the list is as it was. */
  ghost predicate Walking(m: Mgr, ids: seq<id>, expired: set<id>, p: nat, n: Mgr) {
    && p <= |ids| && n.lookups == ids == m.lookups
    && n.errored == m.errored + TimedOut(ids[..p], expired)
    && n.socket == m.socket && WellFormed(n)
    && forall i | i in TimedOut(ids[..p], expired) :: Closing(n.conns, i)
  }

  /** After a rotation at entry `k`: nothing waits, and each error since went to a connection
      that had not been errored. */
  ghost predicate Retiring(m: Mgr, ids: seq<id>, expired: set<id>, k: nat, n: Mgr)
    requires k < |ids|
  {
    && n.lookups == [] && m.errored <= n.errored
    && var es := n.errored[|m.errored|..];
    && TimedOut(ids[..k + 1], expired) <= es && NoRepeats(es)
  }

  lemma TimedOutSnoc(ids: seq<id>, expired: set<id>, p: nat)
    requires p < |ids|
    ensures TimedOut(ids[..p + 1], expired)
         == TimedOut(ids[..p], expired) + if ids[p] in expired then [ids[p]] else []
  {
    assert ids[..p + 1][..p] == ids[..p];
  }

  lemma KeptWalking(m: Mgr, ids: seq<id>, expired: set<id>, p: nat, n: Mgr, h: Handlers, o: Mgr)
    requires Walking(m, ids, expired, p, n) && p < |ids| && ids[p] in expired
    requires Delivered(n, ids[p], h, false, o) && WellFormed(o)
    ensures Walking(m, ids, expired, p + 1, o)
  {
    TimedOutSnoc(ids, expired, p);
    forall i | i in TimedOut(ids[..p + 1], expired) ensures Closing(o.conns, i) {
      AbortedStaysClosing(n.conns, {ids[p]}, i);
      AbortedStaysClosing(Aborted(n.conns, {ids[p]}), Victims(h, ids[p]), i);
    }
  }

  lemma FreshErrors(before: seq<id>, conns: seq<Conn>, r: id, es: seq<id>)
    requires NoRepeats(before) && OnceEach(conns, r, es) && DistinctIds(conns)
    requires forall i | i in before :: Closing(conns, i)
    ensures NoRepeats(before + es)
  {
    var all := before + es;
    forall a, b | 0 <= a < b < |all| ensures all[a] != all[b] {
      if a < |before| <= b {
        assert all[b] == es[b - |before|] && all[b] in es;
        var k :| 0 <= k < |conns| && conns[k].id == all[b] && Open(conns[k]);
        assert conns[k] in conns;
        assert all[a] in before;
      }
    }
  }

  lemma PrefixOnce(ids: seq<id>, expired: set<id>, k: nat)
    requires NoRepeats(ids) && k <= |ids|
    ensures NoRepeats(TimedOut(ids[..k], expired))
  {
    assert forall a | 0 <= a < k :: ids[..k][a] == ids[a];
    TimedOutOnce(ids[..k], expired);
  }

  lemma FailedIsClosing(m: Mgr, ids: seq<id>, expired: set<id>, k: nat, n: Mgr, failed: Mgr)
    requires Walking(m, ids, expired, k, n) && k < |ids| && ids[k] in expired
    requires failed == n.(conns := Aborted(n.conns, {ids[k]}), errored := n.errored + [ids[k]])
    ensures WellFormed(failed) && failed.errored == m.errored + TimedOut(ids[..k + 1], expired)
    ensures forall i | i in TimedOut(ids[..k + 1], expired) :: Closing(failed.conns, i)
  {
    SameConnections(n, failed, {});
    TimedOutSnoc(ids, expired, k);
    forall i | i in TimedOut(ids[..k + 1], expired) ensures Closing(failed.conns, i) {
      AbortedStaysClosing(n.conns, {ids[k]}, i);
    }
  }

  lemma HandedOverOnce(m: Mgr, before: seq<id>, failed: Mgr, h: Handlers, u: Mgr)
    requires WellFormed(failed) && failed.socket.Some? && HandedOver(failed, h, u)
    requires failed.errored == m.errored + before && NoRepeats(before)
    requires forall i | i in before :: Closing(failed.conns, i)
    ensures u.lookups == [] && m.errored <= u.errored
    ensures before <= u.errored[|m.errored|..] && NoRepeats(u.errored[|m.errored|..])
  {
    HandOverFailsEachOnce(failed, h, u);
    var es := u.errored[|failed.errored|..];
    FreshErrors(before, failed.conns, failed.socket.value.id, es);
    assert u.errored[|m.errored|..] == before + es;
  }

  lemma WalkRetires(m: Mgr, ids: seq<id>, expired: set<id>, k: nat, n: Mgr, h: Handlers, o: Mgr)
    requires NoRepeats(ids) && Walking(m, ids, expired, k, n) && k < |ids| && ids[k] in expired
    requires Delivered(n, ids[k], h, true, o)
    ensures Retiring(m, ids, expired, k, o)
  {
    var failed := n.(conns := Aborted(n.conns, {ids[k]}), errored := n.errored + [ids[k]]);
    var u :| HandedOver(failed, h, u) && o == u.(conns := Aborted(u.conns, Victims(h, ids[k])));
    FailedIsClosing(m, ids, expired, k, n, failed);
    PrefixOnce(ids, expired, k + 1);
    HandedOverOnce(m, TimedOut(ids[..k + 1], expired), failed, h, u);
  }

  /** The entry that retires the socket, counted from the head of the list, when those before
      `p` did not. */
  function Ahead(c: Core, ids: seq<id>, telling: set<id>, now: nat, p: nat): Option<nat>
    requires p <= |ids|
  {
    var k := RetiredAt(c, ids[p..], telling, now);
    if k.Some? then Some(k.value + p) else None
  }

  lemma AheadStep(c: Core, ids: seq<id>, telling: set<id>, now: nat, p: nat)
    requires p < |ids|
    ensures Ahead(c, ids, telling, now, p) ==
            if ids[p] in telling && Retires(c, now) then Some(p)
            else Ahead(if ids[p] in telling then Report(c, Some(TIMEOUT), now) else c, ids, telling, now, p + 1)
  {
    assert ids[p..][0] == ids[p] && ids[p..][1..] == ids[p + 1..];
  }

  lemma TimeoutKeepsSocket(c: Core, now: nat)
    requires c.resolver.Some? && !Retires(c, now)
    ensures Report(c, Some(TIMEOUT), now).resolver.Some?
  {
  }

  /** One round: the next entry is noted before this one is errored. */
  method Round(core: MongooseCore, i: id, expired: set<id>, deaf: set<id>, now: nat, h: Handlers,
               ghost m: Mgr, ghost ids: seq<id>, ghost p: nat)
    returns (tmp: Option<id>, ghost retired: bool)
    requires core.Valid() && core.View().resolver.Some? && deaf !! h.Keys
    requires NoRepeats(ids) && p < |ids| && ids[p] == i && Walking(m, ids, expired, p, core.mgr.View())
    modifies core, core.mgr
    ensures core.Valid() && tmp == if p + 1 < |ids| then Some(ids[p + 1]) else None
    ensures Leads(old(core.mgr.View()), core.mgr.View())
    ensures retired ==> Ahead(old(core.View()), ids, expired - deaf, now, p) == Some(p)
                        && Retiring(m, ids, expired, p, core.mgr.View())
    ensures !retired ==> core.View().resolver.Some? && Walking(m, ids, expired, p + 1, core.mgr.View())
                         && Ahead(core.View(), ids, expired - deaf, now, p + 1)
                         == Ahead(old(core.View()), ids, expired - deaf, now, p)
  {
    AfterAt(ids, p);
    AheadStep(core.View(), ids, expired - deaf, now, p);
    LeadsNowhere(core.mgr.View());
    tmp := After(core.mgr.lookups, i);
    retired := false;
    if i !in expired {
      TimedOutSnoc(ids, expired, p);
      return;
    }
    retired := Expire(core, i, expired, i !in deaf, now, h, m, ids, p);
  }

  /** The round of an entry that has expired. */
  method Expire(core: MongooseCore, i: id, ghost expired: set<id>, told: bool, now: nat, h: Handlers,
                ghost m: Mgr, ghost ids: seq<id>, ghost p: nat)
    returns (ghost retired: bool)
    requires core.Valid() && core.View().resolver.Some? && (!told ==> i !in h) && i in expired
    requires NoRepeats(ids) && p < |ids| && ids[p] == i && Walking(m, ids, expired, p, core.mgr.View())
    modifies core, core.mgr
    ensures core.Valid() && Leads(old(core.mgr.View()), core.mgr.View())
    ensures retired == (told && Retires(old(core.View()), now))
    ensures core.View() == if told then Report(old(core.View()), Some(TIMEOUT), now) else old(core.View())
    ensures retired ==> Retiring(m, ids, expired, p, core.mgr.View())
    ensures !retired ==> core.View().resolver.Some? && Walking(m, ids, expired, p + 1, core.mgr.View())
  {
    ghost var n := core.mgr.View();
    retired := told && Retires(core.View(), now);
    if told && !retired {
      TimeoutKeepsSocket(core.View(), now);
    }
    TimeOut(core, i, now, h, told);
    if retired {
      WalkRetires(m, ids, expired, p, n, h, core.mgr.View());
    } else {
      KeptWalking(m, ids, expired, p, n, h, core.mgr.View());
    }
  }

  lemma WalkEnds(m: Mgr, ids: seq<id>, expired: set<id>, n: Mgr)
    requires NoRepeats(ids) && Walking(m, ids, expired, |ids|, n)
    ensures n.errored == m.errored + TimedOut(ids, expired) && NoRepeats(TimedOut(ids, expired))
    ensures forall i | i in ids && i in expired :: i in TimedOut(ids, expired)
  {
    assert ids[..|ids|] == ids;
    TimedOutOnce(ids, expired);
    forall i | i in ids && i in expired ensures i in TimedOut(ids, expired) {
      TimedOutIsExact(ids, expired, i);
    }
  }

  lemma RetiringEnds(m: Mgr, ids: seq<id>, expired: set<id>, n: Mgr)
    requires ids != [] && Retiring(m, ids, expired, |ids| - 1, n)
    ensures forall i | i in ids && i in expired :: i in n.errored[|m.errored|..]
  {
    assert ids[..|ids|] == ids;
    forall i | i in ids && i in expired ensures i in n.errored[|m.errored|..] {
      TimedOutIsExact(ids, expired, i);
    }
  }

  /** The poll of the resolver socket walks the list of pending lookups, holding on to the next
      entry while it errors one; `deaf` are the connections without a handler object. The walk
      comes to an entry that is no longer there exactly if it is interrupted by a rotation. If it
      is not, every expired lookup is errored, and none of the errors it delivers goes to a
      connection twice. Either way the manager has gone along a run. */
  method PollTimeouts(core: MongooseCore, expired: set<id>, deaf: set<id>, now: nat, handlers: Handlers)
    returns (stale: bool)
    requires core.Valid() && core.mgr.socket.Some?
    modifies core, core.mgr
    ensures core.Valid() && Leads(old(core.mgr.View()), core.mgr.View())
    ensures stale <==> Interrupted(old(core.View()), old(core.mgr.lookups), expired - deaf, now)
    ensures
      var m, n := old(core.mgr.View()), core.mgr.View();
      && m.errored <= n.errored
      && var es := n.errored[|m.errored|..];
      && NoRepeats(es)
      && (!stale ==> forall i | i in m.lookups && i in expired :: i in es)
  {
    ghost var m, c := core.mgr.View(), core.View();
    ghost var ids, p, retired := core.mgr.lookups, 0, false;
    assert ids[0..] == ids;
    LeadsNowhere(m);
    var h := handlers - deaf;
    var d := if core.mgr.lookups == [] then None else Some(core.mgr.lookups[0]);
    while d.Some?
      invariant core.Valid() && p <= |ids| && d == if p < |ids| then Some(ids[p]) else None
      invariant Leads(m, core.mgr.View())
      invariant !retired ==> core.View().resolver.Some? && Walking(m, ids, expired, p, core.mgr.View())
                             && Ahead(core.View(), ids, expired - deaf, now, p)
                             == RetiredAt(c, ids, expired - deaf, now)
      invariant retired ==> p > 0 && RetiredAt(c, ids, expired - deaf, now) == Some(p - 1)
                            && Retiring(m, ids, expired, p - 1, core.mgr.View())
      decreases |ids| - p
    {
      if d.value !in core.mgr.lookups {
        return true;
      }
      ghost var n := core.mgr.View();
      d, retired := Round(core, d.value, expired, deaf, now, h, m, ids, p);
      LeadsThrough(m, n, core.mgr.View());
      p := p + 1;
    }
    stale := false;
    if retired {
      RetiringEnds(m, ids, expired, core.mgr.View());
    } else {
      WalkEnds(m, ids, expired, core.mgr.View());
    }
  }
}
