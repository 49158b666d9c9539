/** Nameserver failover: a table of servers, one of them active, rotated on a resolve
    timeout but not more often than once per timeout.
 */
module DnsFailover {
  import opened DnsResolver
  import opened DnsRuns
  import opened Wrappers

  const DEFAULT_URL: url := "udp://8.8.8.8:53"
  const DEFAULT_TIMEOUT := 3000
  const NAMESERVER_LEN := 58

  /** What mgr.dns4.url points at. */
  datatype Pointer = Null | BuiltIn | ActiveBuffer

  datatype Core = Core(table: seq<url>, index: nat, active: url, pointer: Pointer, lastFailover: nat,
                       timeout: nat, resolver: Option<url>)

  function UrlText(c: Core): url {
    match c.pointer
    case Null => ""
    case BuiltIn => DEFAULT_URL
    case ActiveBuffer => c.active
  }

  function Cut(s: url): url {
    if |s| < NAMESERVER_LEN then s else s[..NAMESERVER_LEN - 1]
  }

  /** The entries that are neither null nor empty, as many as fit. */
  function Usable(servers: seq<Option<url>>, room: nat): (r: seq<url>)
    ensures |r| <= room && forall i | 0 <= i < |r| :: r[i] != ""
  {
    if servers == [] || room == 0 then []
    else if servers[0].Some? && servers[0].value != ""
    then [Cut(servers[0].value)] + Usable(servers[1..], room - 1)
    else Usable(servers[1..], room)
  }

  predicate IsUsable(s: Option<url>) {
    s.Some? && s.value != ""
  }

  /** How many of the first `k` entries are neither null nor empty. */
  function UsableBefore(servers: seq<Option<url>>, k: nat): nat
    requires k <= |servers|
  {
    if k == 0 then 0 else UsableBefore(servers, k - 1) + if IsUsable(servers[k - 1]) then 1 else 0
  }

  lemma {:induction false} UsableBeforeTail(servers: seq<Option<url>>, k: nat)
    requires 0 < k <= |servers|
    ensures UsableBefore(servers, k)
         == UsableBefore(servers[1..], k - 1) + if IsUsable(servers[0]) then 1 else 0
  {
    if k > 1 {
      UsableBeforeTail(servers, k - 1);
    }
  }

  /** What fits in a slot with its terminator. */
  predicate IsCut(s: url, full: url) {
    s <= full && |s| == if |full| <= 57 then |full| else 57
  }

  /** Exactly the usable entries go in, in order and wherever they stand, until the table is
      full. */
  lemma {:induction false} UsableIsExact(servers: seq<Option<url>>, room: nat, k: nat)
    requires k < |servers|
    ensures |Usable(servers, room)| == Min(room, UsableBefore(servers, |servers|))
    ensures IsUsable(servers[k]) && UsableBefore(servers, k) < room ==>
              && UsableBefore(servers, k) < |Usable(servers, room)|
              && IsCut(Usable(servers, room)[UsableBefore(servers, k)], servers[k].value)
  {
    UsableBeforeTail(servers, |servers|);
    if k > 0 {
      UsableBeforeTail(servers, k);
    }
    if room > 0 {
      var left := if IsUsable(servers[0]) then room - 1 else room;
      if |servers| > 1 {
        UsableIsExact(servers[1..], left, if k > 0 then k - 1 else 0);
      }
    }
    UsableBeforeGrows(servers, k);
  }

  lemma {:induction false} UsableBeforeGrows(servers: seq<Option<url>>, k: nat)
    requires k < |servers|
    ensures UsableBefore(servers, k) + (if IsUsable(servers[k]) then 1 else 0) <= UsableBefore(servers, |servers|)
    decreases |servers| - k
  {
    if k + 1 < |servers| {
      UsableBeforeGrows(servers, k + 1);
    }
  }

  function Use(c: Core, index: nat): Core {
    if index >= |c.table| then c.(index := index)
    else if c.active != c.table[index]
    then c.(index := index, resolver := None, active := c.table[index], pointer := ActiveBuffer)
    else c.(index := index, pointer := ActiveBuffer)
  }

  function Configure(c: Core, servers: seq<Option<url>>, capacity: nat): Core {
    Use(c.(table := Usable(servers, capacity), lastFailover := 0), 0)
  }

  predicate Rotates(c: Core, error: Option<string>, now: nat) {
    && |c.table| >= 2
    && error == Some("DNS timeout")
    && (c.lastFailover == 0 || now < c.lastFailover || now - c.lastFailover >= c.timeout)
  }

  function Report(c: Core, error: Option<string>, now: nat): Core {
    if Rotates(c, error, now) then Use(c.(lastFailover := now), (c.index + 1) % |c.table|) else c
  }

  lemma ReportRotates(c: Core, error: Option<string>, now: nat, next: nat)
    requires Rotates(c, error, now) && next == (c.index + 1) % |c.table|
    ensures Report(c, error, now) == Use(c.(lastFailover := now), next)
  {
  }

  /** `begin`: on a platform that has a list of its own, `ipConfigChanged` configures that. */
  function Restart(c: Core, capacity: nat, platform: Option<seq<Option<url>>>): Core {
    var reset := c.(resolver := None, pointer := BuiltIn, timeout := DEFAULT_TIMEOUT);
    var told := if platform.Some? then Configure(reset, platform.value, capacity) else reset;
    Use(told, told.index)
  }

  /** A lookup opens a socket to whatever the URL is, if there is none. */
  function Lookup(c: Core): Core {
    if c.pointer.Null? || c.resolver.Some? then c else c.(resolver := Some(UrlText(c)))
  }

  datatype Op =
    | Set(servers: seq<Option<url>>)
    | Error(error: Option<string>, now: nat)
    | Begin(platform: Option<seq<Option<url>>>)
    | Resolve
    | SocketClosed
    | SetTimeout(ms: nat)

  function Apply(c: Core, capacity: nat, op: Op): Core {
    match op
    case Set(servers) => Configure(c, servers, capacity)
    case Error(error, now) => Report(c, error, now)
    case Begin(platform) => Restart(c, capacity, platform)
    case Resolve => Lookup(c)
    case SocketClosed => c.(resolver := None)
    case SetTimeout(ms) => c.(timeout := ms)
  }

  predicate Configures(op: Op) {
    op.Set? || (op.Begin? && op.platform.Some?)
  }

  function Run(c: Core, capacity: nat, ops: seq<Op>): Core {
    if ops == [] then c else Apply(Run(c, capacity, ops[..|ops| - 1]), capacity, ops[|ops| - 1])
  }

  const INITIAL := Core([], 0, "", Null, 0, 0, None)

  // -------------------------------------------------------------------------
  // Agreement
  // -------------------------------------------------------------------------

  /** Table, private buffer and URL name the same server. */
  predicate Selected(c: Core) {
    c.table != [] ==> c.index < |c.table| && c.active == c.table[c.index] && c.pointer == ActiveBuffer
  }

  /** And so does an open socket. */
  predicate Agree(c: Core) {
    && Selected(c)
    && (c.resolver.Some? ==> c.pointer != Null && c.resolver.value == UrlText(c))
  }

  /** The first needs no order of calls: every configuration brings it about, and nothing else
      undoes it. */
  lemma SelectionIsKept(c: Core, capacity: nat, op: Op)
    ensures Selected(c) || Configures(op) ==> Selected(Apply(c, capacity, op))
  {
    if op.Error? && Rotates(c, op.error, op.now) {
      assert 0 <= (c.index + 1) % |c.table| < |c.table|;
    }
  }

  /** So over every run whatever. */
  lemma {:induction false} SelectionOverRuns(c: Core, capacity: nat, ops: seq<Op>)
    requires Selected(c)
    ensures Selected(Run(c, capacity, ops))
  {
    if ops != [] {
      SelectionOverRuns(c, capacity, ops[..|ops| - 1]);
      SelectionIsKept(Run(c, capacity, ops[..|ops| - 1]), capacity, ops[|ops| - 1]);
    }
  }

  /** The call would select the server the private buffer still holds from an earlier
      configuration, while the open socket talks to the built-in one. */
  predicate StaleHit(c: Core, capacity: nat, op: Op) {
    && op.Set?
    && c.resolver.Some? && c.pointer == BuiltIn && c.active != DEFAULT_URL
    && var usable := Usable(op.servers, capacity); usable != [] && usable[0] == c.active
  }

  /** One operation keeps the agreement exactly when it is not such a call. */
  lemma AgreementIsKept(c: Core, capacity: nat, op: Op)
    requires Agree(c)
    ensures Agree(Apply(c, capacity, op)) <==> !StaleHit(c, capacity, op)
  {
    SelectionIsKept(c, capacity, op);
  }

  /** A restart drops the socket and takes the built-in timeout; without servers it goes back to
      the built-in one, with them it stays where it was. */
  lemma RestartStartsOver(c: Core, capacity: nat, platform: Option<seq<Option<url>>>)
    requires Selected(c)
    ensures
      var d := Apply(c, capacity, Begin(platform));
      && d.timeout == 3000 && d.resolver == None
      && (d.table == [] ==> UrlText(d) == "udp://8.8.8.8:53")
      && (platform.None? ==> d.table == c.table && d.lastFailover == c.lastFailover
                             && (d.table != [] ==> UrlText(d) == UrlText(c)))
      && (platform.Some? && d.table != [] ==> UrlText(d) == d.table[0])
  {
    assert DEFAULT_URL == "udp://8.8.8.8:53";
  }

  /** A lookup opens a socket where there is none, and only then, to the server selected. */
  lemma LookupOpensOnce(c: Core, capacity: nat)
    ensures
      var d := Apply(c, capacity, Resolve);
      && UrlText(d) == UrlText(c)
      && d.resolver == if c.resolver.Some? then c.resolver
                       else if c.pointer.Null? then None else Some(UrlText(c))
  {
  }

  /** A resolver socket that the manager closed is opened again by the next lookup, to whichever
      server is selected by then. */
  lemma ClosedSocketIsReopened(c: Core, capacity: nat)
    ensures
      var d := Apply(Apply(c, capacity, SocketClosed), capacity, Resolve);
      d.resolver == (if c.pointer.Null? then None else Some(UrlText(c))) && UrlText(d) == UrlText(c)
  {
  }

  /** The timeout last set, or that of the last restart. */
  function TimeoutSet(ops: seq<Op>, before: nat): nat {
    if ops == [] then before
    else
      match ops[|ops| - 1]
      case SetTimeout(ms) => ms
      case Begin(_) => 3000
      case _ => TimeoutSet(ops[..|ops| - 1], before)
  }

  lemma {:induction false} TimeoutIsAsSet(c: Core, capacity: nat, ops: seq<Op>)
    ensures Run(c, capacity, ops).timeout == TimeoutSet(ops, c.timeout)
  {
    if ops != [] {
      TimeoutIsAsSet(c, capacity, ops[..|ops| - 1]);
    }
  }

  predicate AgreesThroughout(c: Core, capacity: nat, ops: seq<Op>) {
    Agree(Run(c, capacity, ops)) && (ops == [] || AgreesThroughout(c, capacity, ops[..|ops| - 1]))
  }

  predicate HitsStale(c: Core, capacity: nat, ops: seq<Op>) {
    ops != [] &&
    var init, op := ops[..|ops| - 1], ops[|ops| - 1];
    HitsStale(c, capacity, init) || StaleHit(Run(c, capacity, init), capacity, op)
  }

  /** Over every run the four agree at every step exactly if no call is such a one. */
  lemma {:induction false} AgreementThroughout(c: Core, capacity: nat, ops: seq<Op>)
    requires Agree(c)
    ensures AgreesThroughout(c, capacity, ops) <==> !HitsStale(c, capacity, ops)
  {
    if ops != [] {
      var init, op := ops[..|ops| - 1], ops[|ops| - 1];
      AgreementThroughout(c, capacity, init);
      if AgreesThroughout(c, capacity, init) {
        AgreementIsKept(Run(c, capacity, init), capacity, op);
      }
    }
  }

  /** `begin` never ends with an emptied table after a non-empty one. */
  predicate Orderly(c: Core, capacity: nat, ops: seq<Op>) {
    ops == [] ||
    var init, op := ops[..|ops| - 1], ops[|ops| - 1];
    && Orderly(c, capacity, init)
    && (op.Begin? ==> Run(c, capacity, ops).table != [] || Run(c, capacity, init).active == "")
  }

  /** So over every orderly run from start-up the four agree. */
  lemma {:induction false} AgreementOverRuns(capacity: nat, ops: seq<Op>)
    requires Orderly(INITIAL, capacity, ops)
    ensures var c := Run(INITIAL, capacity, ops);
            Agree(c) && (c.pointer != ActiveBuffer ==> c.active == "")
  {
    if ops != [] {
      var init, op := ops[..|ops| - 1], ops[|ops| - 1];
      AgreementOverRuns(capacity, init);
      AgreementIsKept(Run(INITIAL, capacity, init), capacity, op);
    }
  }

  /** The order of calls that breaks it: configure, clear, restart, look something up, and
      configure the same server again. The socket stays with the built-in server. */
  lemma StaleBufferExample(capacity: nat)
    requires capacity > 0
    ensures
      var a: url := "a";
      var ops := [Set([Some(a)]), Set([]), Begin(None), Resolve, Set([Some(a)])];
      var c := Run(INITIAL, capacity, ops);
      && !Orderly(INITIAL, capacity, ops)
      && UrlText(c) == a && c.resolver == Some(DEFAULT_URL)
  {
    var a: url := "a";
    UsableOne(a, capacity);
    var c1 := Configure(INITIAL, [Some(a)], capacity);
    var c2 := Configure(c1, [], capacity);
    RunFive(INITIAL, capacity, Set([Some(a)]), Set([]), Begin(None), Resolve, Set([Some(a)]));
    assert c2.table == [] && c2.active == a;
  }

  lemma UsableOne(a: url, capacity: nat)
    requires 0 < |a| < NAMESERVER_LEN && capacity > 0
    ensures Usable([Some(a)], capacity) == [a]
  {
    var one: seq<Option<url>> := [Some(a)];
    assert one[1..] == [];
    assert Usable(one[1..], capacity - 1) == [];
  }

  lemma RunFive(c: Core, capacity: nat, a: Op, b: Op, d: Op, e: Op, f: Op)
    ensures
      var c3 := Apply(Apply(Apply(c, capacity, a), capacity, b), capacity, d);
      && Run(c, capacity, [a, b, d, e, f]) == Apply(Apply(c3, capacity, e), capacity, f)
      && (Orderly(c, capacity, [a, b, d, e, f]) && d.Begin? ==>
            c3.table != [] || Apply(Apply(c, capacity, a), capacity, b).active == "")
  {
    assert [a, b, d, e, f][..4] == [a, b, d, e] && [a, b, d, e][..3] == [a, b, d];
    assert [a, b, d][..2] == [a, b] && [a, b][..1] == [a] && [a][..0] == [];
    assert Run(c, capacity, [a]) == Apply(c, capacity, a);
    assert Run(c, capacity, [a, b]) == Apply(Apply(c, capacity, a), capacity, b);
    assert Run(c, capacity, [a, b, d]) == Apply(Apply(Apply(c, capacity, a), capacity, b), capacity, d);
    assert Orderly(c, capacity, [a, b, d, e, f]) ==> Orderly(c, capacity, [a, b, d, e]);
    assert Orderly(c, capacity, [a, b, d, e]) ==> Orderly(c, capacity, [a, b, d]);
  }

  // -------------------------------------------------------------------------
  // Rotation
  // -------------------------------------------------------------------------

  predicate IsRotation(c: Core, op: Op) {
    op.Error? && Rotates(c, op.error, op.now)
  }

  /** Successful rotations in a run. */
  function Rotations(c: Core, capacity: nat, ops: seq<Op>): nat {
    if ops == [] then 0 else
      var init, op := ops[..|ops| - 1], ops[|ops| - 1];
      Rotations(c, capacity, init) + if IsRotation(Run(c, capacity, init), op) then 1 else 0
  }

  predicate NoneConfigures(ops: seq<Op>) {
    forall i | 0 <= i < |ops| :: !Configures(ops[i])
  }

  lemma OneMoreMod(k: nat, n: nat)
    requires n > 0
    ensures (k % n + 1) % n == (k + 1) % n
  {
    NextRemainder(k, n, k / n, k % n);
  }

  lemma NextRemainder(k: nat, n: nat, q: nat, r: nat)
    requires r < n && k == n * q + r
    ensures (r + 1) % n == (k + 1) % n
  {
    if r + 1 < n {
      ModOf(r + 1, n, 0, r + 1);
      ModOf(k + 1, n, q, r + 1);
    } else {
      ModOf(n, n, 1, 0);
      Distributes(n, q, -1);
      ModOf(k + 1, n, q + 1, 0);
    }
  }

  lemma Distributes(n: int, a: int, b: int)
    ensures n * (a - b) == n * a - n * b
  {
  }

  lemma Scaled(n: int, k: int)
    requires n >= 0
    ensures k >= 1 ==> n * k >= n
    ensures k <= -1 ==> n * k <= -n
  {
  }

  lemma ModOf(x: nat, n: nat, q: nat, r: nat)
    requires n > 0 && r < n && x == n * q + r
    ensures x % n == r
  {
    Quotient(x, n, q, r, x / n, x % n);
  }

  lemma Quotient(x: nat, n: nat, q: nat, r: nat, q': nat, r': nat)
    requires r < n && r' < n && x == n * q + r == n * q' + r'
    ensures r == r'
  {
    Distributes(n, q, q');
    Scaled(n, q - q');
  }

  /** From a configuration on, the k-th successful rotation selects entry k modulo the
      number of servers, through restarts, lookups and any other errors. */
  lemma {:induction false} RotationsCycle(c: Core, capacity: nat, servers: seq<Option<url>>, ops: seq<Op>)
    requires NoneConfigures(ops)
    ensures
      var start := Configure(c, servers, capacity);
      var end := Run(start, capacity, ops);
      && end.table == start.table == Usable(servers, capacity)
      && (end.table != [] ==> end.index == Rotations(start, capacity, ops) % |end.table|)
  {
    var start := Configure(c, servers, capacity);
    if ops != [] {
      var init := ops[..|ops| - 1];
      RotationsCycle(c, capacity, servers, init);
      CycleStep(Run(start, capacity, init), capacity, ops[|ops| - 1], Rotations(start, capacity, init));
    } else if start.table != [] {
      ModOf(0, |start.table|, 0, 0);
    }
  }

  lemma CycleStep(c: Core, capacity: nat, op: Op, k: nat)
    requires !Configures(op) && (c.table != [] ==> c.index == k % |c.table|)
    ensures var d := Apply(c, capacity, op);
            && d.table == c.table
            && (c.table != [] ==> d.index == (if IsRotation(c, op) then k + 1 else k) % |c.table|)
  {
    if IsRotation(c, op) {
      OneMoreMod(k, |c.table|);
    }
  }

  predicate Still(c: Core, capacity: nat, ops: seq<Op>) {
    ops == [] ||
    var init, op := ops[..|ops| - 1], ops[|ops| - 1];
    Still(c, capacity, init) && !Configures(op) && !IsRotation(Run(c, capacity, init), op)
  }

  lemma {:induction false} LastFailoverStays(c: Core, capacity: nat, ops: seq<Op>)
    requires Still(c, capacity, ops)
    ensures Run(c, capacity, ops).lastFailover == c.lastFailover
  {
    if ops != [] {
      LastFailoverStays(c, capacity, ops[..|ops| - 1]);
    }
  }

  /** Two rotations in a row are at least the timeout apart, so a burst of stalled lookups
      rotates once; only a clock that read 0 at the first, or has gone back since, would not
      hold the second back. A timeout reported later than that always rotates. */
  lemma RotationsAreSpaced(c: Core, capacity: nat, e: Option<string>, t1: nat, ops: seq<Op>, t2: nat)
    requires Rotates(c, e, t1) && Still(Report(c, e, t1), capacity, ops)
    ensures
      var c2 := Run(Report(c, e, t1), capacity, ops);
      Rotates(c2, Some("DNS timeout"), t2) <==>
      |c2.table| >= 2 && (t1 == 0 || t2 < t1 || t2 - t1 >= c2.timeout)
  {
    LastFailoverStays(Report(c, e, t1), capacity, ops);
  }

  /** No other error rotates, and nothing does while there are fewer than two servers. */
  lemma OnlyTimeoutsRotate(c: Core, e: Option<string>, now: nat)
    requires e != Some("DNS timeout") || |c.table| < 2
    ensures Report(c, e, now) == c
  {
  }

  /** A new configuration is not held back by what went before it: the first timeout rotates. */
  lemma FreshConfigurationRotates(c: Core, capacity: nat, servers: seq<Option<url>>, ops: seq<Op>, now: nat)
    requires Still(Configure(c, servers, capacity), capacity, ops)
    ensures
      var d := Run(Configure(c, servers, capacity), capacity, ops);
      Rotates(d, Some("DNS timeout"), now) <==> |d.table| >= 2
  {
    LastFailoverStays(Configure(c, servers, capacity), capacity, ops);
  }

  predicate Distinct(urls: seq<url>) {
    forall i, j | 0 <= i < j < |urls| :: urls[i] != urls[j]
  }

  /** A rotation reports a change; the server really changes, and the old socket goes,
      exactly when the next entry differs, which a table without repeats guarantees. */
  lemma RotationChangesServer(c: Core, e: Option<string>, now: nat)
    requires Selected(c) && Rotates(c, e, now)
    ensures
      var d := Report(c, e, now);
      var next := (c.index + 1) % |c.table|;
      && d.index == next && UrlText(d) == c.table[next]
      && (UrlText(d) != UrlText(c) <==> c.table[next] != c.table[c.index])
      && (UrlText(d) != UrlText(c) ==> d.resolver == None)
      && (Distinct(c.table) ==> UrlText(d) != UrlText(c))
  {
    var next := (c.index + 1) % |c.table|;
    assert next != c.index by {
      if c.index + 1 < |c.table| {
        ModOf(c.index + 1, |c.table|, 0, c.index + 1);
      } else {
        ModOf(c.index + 1, |c.table|, 1, 0);
      }
    }
  }

  // -------------------------------------------------------------------------
  // The core in place
  // -------------------------------------------------------------------------

  class MongooseCore {
    const nameserver: array<url>
    var nameserverCount: nat
    var activeNameserver: nat
    var active: url
    var pointer: Pointer
    var lastFailover: nat
    var dnstimeout: nat
    const mgr: Manager

    ghost predicate Valid()
      reads this, nameserver, mgr
    {
      nameserverCount <= nameserver.Length && Sane(mgr.View())
    }

    ghost function View(): Core
      reads this, nameserver, mgr
      requires Valid()
    {
      Core(nameserver[..nameserverCount], activeNameserver, active, pointer, lastFailover, dnstimeout,
           if mgr.socket.Some? then Some(mgr.socket.value.target) else None)
    }

    constructor (capacity: nat)
      ensures Valid() && View() == INITIAL && nameserver.Length == capacity && fresh(nameserver) && fresh(mgr)
    {
      nameserver := new url[capacity](_ => "");
      nameserverCount, activeNameserver, active, pointer, lastFailover, dnstimeout := 0, 0, "", Null, 0, 0;
      mgr := new Manager();
    }

    method UseNameserver(index: nat, h: Handlers)
      requires Valid()
      modifies this, mgr
      ensures Valid() && View() == Use(old(View()), index)
      ensures old(mgr.socket).Some? && mgr.socket.None? ==> HandedOver(old(mgr.View()), h, mgr.View())
      ensures mgr.socket.Some? || old(mgr.socket).None? ==> mgr.View() == old(mgr.View())
      ensures dnstimeout == old(dnstimeout) && Leads(old(mgr.View()), mgr.View())
    {
      LeadsNowhere(mgr.View());
      activeNameserver := index;
      if index >= nameserverCount {
        return;
      }
      if active != nameserver[index] {
        HandOver(h);
        active := nameserver[index];
      }
      pointer := ActiveBuffer;
    }

    /** `closeResolver` is one step of a run, or none. */
    method HandOver(h: Handlers)
      requires Sane(mgr.View())
      modifies mgr
      ensures Sane(mgr.View()) && mgr.socket.None? && Leads(old(mgr.View()), mgr.View())
      ensures old(mgr.socket).None? ==> mgr.View() == old(mgr.View())
      ensures old(mgr.socket).Some? ==> HandedOver(old(mgr.View()), h, mgr.View())
    {
      ghost var m := mgr.View();
      LeadsNowhere(m);
      mgr.CloseResolver(h);
      if m.socket.Some? {
        HandOverFailsEachOnce(m, h, mgr.View());
        LeadsAtOnce(m, mgr.View());
      }
    }

    /** The copy loop of `setNameservers`. */
    method FillTable(servers: seq<Option<url>>)
      requires nameserverCount <= nameserver.Length
      modifies `nameserverCount, nameserver
      ensures nameserverCount <= nameserver.Length
      ensures nameserver[..nameserverCount] == Usable(servers, nameserver.Length)
    {
      nameserverCount := 0;
      var i := 0;
      while i < |servers| && nameserverCount < nameserver.Length
        invariant 0 <= i <= |servers| && nameserverCount <= nameserver.Length
        invariant nameserver[..nameserverCount] + Usable(servers[i..], nameserver.Length - nameserverCount)
               == Usable(servers, nameserver.Length)
      {
        assert servers[i..][1..] == servers[i + 1..];
        if servers[i].Some? && servers[i].value != "" {
          nameserver[nameserverCount] := Cut(servers[i].value);
          nameserverCount := nameserverCount + 1;
          assert nameserver[..nameserverCount] == nameserver[..nameserverCount - 1] + [Cut(servers[i].value)];
        }
        i := i + 1;
      }
    }

    method SetNameservers(servers: seq<Option<url>>, h: Handlers)
      requires Valid()
      modifies this, nameserver, mgr
      ensures Valid() && View() == Configure(old(View()), servers, nameserver.Length)
      ensures Leads(old(mgr.View()), mgr.View())
    {
      FillTable(servers);
      lastFailover := 0;
      UseNameserver(0, h);
    }

    method DnsError(error: Option<string>, now: nat, h: Handlers) returns (changed: bool)
      requires Valid()
      modifies this, mgr
      ensures Valid() && changed == Rotates(old(View()), error, now)
      ensures View() == Report(old(View()), error, now) && Leads(old(mgr.View()), mgr.View())
      ensures old(mgr.socket).Some? && mgr.socket.None? ==> HandedOver(old(mgr.View()), h, mgr.View())
      ensures mgr.socket.Some? || old(mgr.socket).None? ==> mgr.View() == old(mgr.View())
    {
      ghost var c := View();
      assert |c.table| == nameserverCount;
      LeadsNowhere(mgr.View());
      if nameserverCount < 2 || error.None? || error.value != "DNS timeout" {
        return false;
      }
      if lastFailover != 0 && now >= lastFailover && now - lastFailover < dnstimeout {
        return false;
      }
      var next := Successor();
      ReportRotates(c, error, now, next);
      RotateTo(next, now, h);
      return true;
    }

    method RotateTo(next: nat, now: nat, h: Handlers)
      requires Valid()
      modifies this, mgr
      ensures Valid() && View() == Use(old(View()).(lastFailover := now), next)
      ensures Leads(old(mgr.View()), mgr.View())
      ensures old(mgr.socket).Some? && mgr.socket.None? ==> HandedOver(old(mgr.View()), h, mgr.View())
      ensures mgr.socket.Some? || old(mgr.socket).None? ==> mgr.View() == old(mgr.View())
    {
      Stamp(now);
      UseNameserver(next, h);
    }

    method Stamp(now: nat)
      requires Valid()
      modifies `lastFailover
      ensures Valid() && View() == old(View()).(lastFailover := now)
    {
      lastFailover := now;
    }

    method Successor() returns (next: nat)
      requires Valid() && nameserverCount > 0
      ensures next == (View().index + 1) % |View().table|
    {
      next := (activeNameserver + 1) % nameserverCount;
      assert |View().table| == nameserverCount;
    }

    method Begin(platform: Option<seq<Option<url>>>, h: Handlers)
      requires Valid()
      modifies this, nameserver, mgr
      ensures Valid() && View() == Restart(old(View()), nameserver.Length, platform)
      ensures Leads(old(mgr.View()), mgr.View())
    {
      ghost var m := mgr.View();
      mgr.Reset();
      LeadsAtOnce(m, mgr.View());
      pointer := BuiltIn;
      dnstimeout := DEFAULT_TIMEOUT;
      if platform.Some? {
        ghost var reset := mgr.View();
        SetNameservers(platform.value, h);
        LeadsThrough(m, reset, mgr.View());
      }
      ghost var told := mgr.View();
      UseNameserver(activeNameserver, h);
      LeadsThrough(m, told, mgr.View());
    }
  }
}
