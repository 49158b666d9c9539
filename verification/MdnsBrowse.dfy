/** Browsing for services: a bounded cache fed by replies, a query that is resent on a
    bounded schedule, and the name each query carries.
 */
module MdnsBrowse {
  import opened Bytes
  import opened MdnsTxt
  import opened Wrappers

  const MAX_BROWSE_RECORDS := 32
  const CACHE_TTL_MS := 5000
  const RETRY_MS := 1000
  const MAX_RETRIES := 4
  const LOCAL: bytes := [46, 108, 111, 99, 97, 108]

  type address = seq<byte>

  /** What `handleResponse` reads of one reply. */
  datatype Reply = Reply(hasRecord: bool, service: bytes, name: bytes, port: nat,
                         txt: Option<bytes>, addr: Option<address>)

  datatype Timed = Timed(reply: Reply, at: nat)

  datatype Record = Record(instance: bytes, hostname: bytes, port: nat, txt: seq<Pair>,
                           addresses: seq<address>, expires: nat)

  datatype Discovered = Discovered(instance: bytes, hostname: bytes, addresses: seq<address>,
                                   txt: seq<Pair>, port: nat)

  // -------------------------------------------------------------------------
  // What the log of replies says
  // -------------------------------------------------------------------------

  predicate Accepted(service: bytes, r: Reply) {
    && service != [] && r.hasRecord
    && r.service != [] && Canon(r.service) == Canon(service)
    && r.name != []
  }

  /** The fully qualified instance a reply is about. */
  function InstanceOf(r: Reply): bytes {
    r.name[..Find(r.name, DOT)] + [DOT] + r.service + LOCAL
  }

  predicate About(t: Timed, name: bytes) {
    Canon(InstanceOf(t.reply)) == Canon(name)
  }

  predicate Resolves(r: Reply) {
    r.port != 0 && DOT in r.name
  }

  predicate Known(names: seq<bytes>, t: Timed) {
    exists i | 0 <= i < |names| :: About(t, names[i])
  }

  /** The first instances the log mentions, each spelled as at first mention. */
  function Mentioned(log: seq<Timed>): seq<bytes> {
    if log == [] then [] else
      var before, t := Mentioned(log[..|log| - 1]), log[|log| - 1];
      if |before| == MAX_BROWSE_RECORDS || Known(before, t)
      then before else before + [InstanceOf(t.reply)]
  }

  // Each field of an entry is settled by the latest reply that speaks to it.

  function LastHeard(log: seq<Timed>, name: bytes): nat {
    if log == [] then 0 else
      var t := log[|log| - 1];
      if About(t, name) then t.at else LastHeard(log[..|log| - 1], name)
  }

  function LastTarget(log: seq<Timed>, name: bytes): (bytes, nat) {
    if log == [] then ([], 0) else
      var t := log[|log| - 1];
      if About(t, name) && Resolves(t.reply) then (t.reply.name, t.reply.port)
      else LastTarget(log[..|log| - 1], name)
  }

  function LastTxt(log: seq<Timed>, name: bytes): seq<Pair> {
    if log == [] then [] else
      var t := log[|log| - 1];
      if About(t, name) && t.reply.txt.Some? then SplitAll(Strings(t.reply.txt.value))
      else LastTxt(log[..|log| - 1], name)
  }

  function LastAddress(log: seq<Timed>, name: bytes): seq<address> {
    if log == [] then [] else
      var t := log[|log| - 1];
      if About(t, name) && t.reply.addr.Some? then [t.reply.addr.value]
      else LastAddress(log[..|log| - 1], name)
  }

  function Entry(log: seq<Timed>, name: bytes): Record {
    var (host, port) := LastTarget(log, name);
    Record(name, host, port, LastTxt(log, name), LastAddress(log, name),
           LastHeard(log, name) + CACHE_TTL_MS)
  }

  function Cache(log: seq<Timed>): (rs: seq<Record>)
    ensures |rs| == |Mentioned(log)|
  {
    var names := Mentioned(log);
    seq(|names|, i requires 0 <= i < |names| => Entry(log, names[i]))
  }

  // -------------------------------------------------------------------------
  // Facts about the log
  // -------------------------------------------------------------------------

  lemma {:induction false} MentionedIsBoundedAndDistinct(log: seq<Timed>)
    ensures |Mentioned(log)| <= 32
    ensures forall i, j | 0 <= i < j < |Mentioned(log)| ::
              Canon(Mentioned(log)[i]) != Canon(Mentioned(log)[j])
  {
    if log != [] {
      MentionedIsBoundedAndDistinct(log[..|log| - 1]);
    }
  }

  /** A mention is never withdrawn or moved, so an expired entry keeps its slot. */
  lemma MentionedOnlyGrows(log: seq<Timed>, t: Timed)
    ensures Mentioned(log) <= Mentioned(log + [t])
  {
    assert (log + [t])[..|log|] == log;
  }

  /** Every instance in the log is mentioned, unless 32 others came first. */
  lemma {:induction false} MentionedIsComplete(log: seq<Timed>, k: nat)
    requires k < |log|
    ensures |Mentioned(log)| == 32 || Known(Mentioned(log), log[k])
  {
    var init, names := log[..|log| - 1], Mentioned(log);
    MentionedIsBoundedAndDistinct(log);
    if k < |init| {
      MentionedIsComplete(init, k);
      if |Mentioned(init)| < MAX_BROWSE_RECORDS {
        var i :| 0 <= i < |Mentioned(init)| && About(init[k], Mentioned(init)[i]);
        assert names[i] == Mentioned(init)[i];
      }
    } else if |Mentioned(init)| < MAX_BROWSE_RECORDS && !Known(Mentioned(init), log[k]) {
      assert About(log[k], names[|names| - 1]);
    }
  }

  predicate Ordered(log: seq<Timed>) {
    forall i, j | 0 <= i < j < |log| :: log[i].at <= log[j].at
  }

  /** Some reply about it is younger than the TTL. */
  predicate HeardLately(log: seq<Timed>, name: bytes, now: nat) {
    exists k | 0 <= k < |log| :: About(log[k], name) && now < log[k].at + 5000
  }

  lemma HeardSnoc(log: seq<Timed>, t: Timed, name: bytes, now: nat)
    ensures HeardLately(log + [t], name, now) <==>
            HeardLately(log, name, now) || (About(t, name) && now < t.at + 5000)
  {
    var all := log + [t];
    assert forall k | 0 <= k < |log| :: all[k] == log[k];
    assert all[|log|] == t;
  }

  /** Under a clock that does not run back, an instance is live exactly when some
      reply about it is younger than the TTL. */
  lemma {:induction false} LiveMeansRecentlyHeard(log: seq<Timed>, name: bytes, now: nat)
    requires Ordered(log)
    requires exists k | 0 <= k < |log| :: About(log[k], name)
    ensures now < LastHeard(log, name) + CACHE_TTL_MS <==> HeardLately(log, name, now)
  {
    var init, t := log[..|log| - 1], log[|log| - 1];
    assert log == init + [t];
    HeardSnoc(init, t, name, now);
    if About(t, name) {
      assert forall k | 0 <= k < |init| :: init[k].at <= t.at;
    } else {
      var k :| 0 <= k < |log| && About(log[k], name);
      assert About(init[k], name);
      LiveMeansRecentlyHeard(init, name, now);
    }
  }

  lemma {:induction false} MentionedWasHeard(log: seq<Timed>, i: nat)
    requires i < |Mentioned(log)|
    ensures exists k | 0 <= k < |log| :: About(log[k], Mentioned(log)[i])
  {
    var init := log[..|log| - 1];
    if i < |Mentioned(init)| {
      MentionedWasHeard(init, i);
      var k :| 0 <= k < |init| && About(init[k], Mentioned(init)[i]);
      assert About(log[k], Mentioned(log)[i]);
    } else {
      assert About(log[|log| - 1], Mentioned(log)[i]);
    }
  }

  /** An entry changes only in the fields the new reply carries. */
  function Touched(rec: Record, r: Reply, now: nat): Record {
    Record(rec.instance,
           if Resolves(r) then r.name else rec.hostname,
           if Resolves(r) then r.port else rec.port,
           if r.txt.Some? then SplitAll(Strings(r.txt.value)) else rec.txt,
           if r.addr.Some? then [r.addr.value] else rec.addresses,
           now + CACHE_TTL_MS)
  }

  lemma EntryStep(log: seq<Timed>, t: Timed, name: bytes)
    ensures Entry(log + [t], name) == if About(t, name) then Touched(Entry(log, name), t.reply, t.at)
                                      else Entry(log, name)
  {
    assert (log + [t])[..|log|] == log;
  }

  lemma {:induction false} NeverHeard(log: seq<Timed>, name: bytes)
    requires forall k | 0 <= k < |log| :: !About(log[k], name)
    ensures Entry(log, name) == Record(name, [], 0, [], [], CACHE_TTL_MS)
  {
    if log != [] {
      assert forall k | 0 <= k < |log| - 1 :: log[..|log| - 1][k] == log[k];
      NeverHeard(log[..|log| - 1], name);
    }
  }

  /** A reply about a known instance touches that entry and no other. */
  lemma CacheTouch(log: seq<Timed>, t: Timed, i: nat)
    requires i < |Mentioned(log)| && About(t, Mentioned(log)[i])
    ensures Cache(log + [t]) == Cache(log)[i := Touched(Cache(log)[i], t.reply, t.at)]
  {
    var names := Mentioned(log);
    assert (log + [t])[..|log|] == log;
    MentionedIsBoundedAndDistinct(log);
    forall k | 0 <= k < |names|
      ensures Entry(log + [t], names[k]) == Cache(log)[i := Touched(Cache(log)[i], t.reply, t.at)][k]
    {
      EntryStep(log, t, names[k]);
    }
  }

  lemma UnknownWasNeverHeard(log: seq<Timed>, t: Timed)
    requires !Known(Mentioned(log), t) && |Mentioned(log)| < MAX_BROWSE_RECORDS
    ensures forall k | 0 <= k < |log| :: !About(log[k], InstanceOf(t.reply))
  {
    var names, name := Mentioned(log), InstanceOf(t.reply);
    forall k | 0 <= k < |log| ensures !About(log[k], name) {
      MentionedIsComplete(log, k);
      var i :| 0 <= i < |names| && About(log[k], names[i]);
      assert !About(t, names[i]) by {
        assert !Known(names, t);
      }
    }
  }

  lemma OthersUntouched(log: seq<Timed>, t: Timed)
    requires !Known(Mentioned(log), t)
    ensures forall k | 0 <= k < |Mentioned(log)| ::
              Entry(log + [t], Mentioned(log)[k]) == Entry(log, Mentioned(log)[k])
  {
    var names := Mentioned(log);
    forall k | 0 <= k < |names| ensures Entry(log + [t], names[k]) == Entry(log, names[k]) {
      assert !About(t, names[k]);
      EntryStep(log, t, names[k]);
    }
  }

  lemma MentionedSnoc(log: seq<Timed>, t: Timed)
    ensures var names := Mentioned(log);
            Mentioned(log + [t]) == if |names| == MAX_BROWSE_RECORDS || Known(names, t)
                                    then names else names + [InstanceOf(t.reply)]
  {
    assert (log + [t])[..|log|] == log;
  }

  lemma CacheFull(log: seq<Timed>, t: Timed)
    requires !Known(Mentioned(log), t) && |Mentioned(log)| == MAX_BROWSE_RECORDS
    ensures Cache(log + [t]) == Cache(log)
  {
    MentionedSnoc(log, t);
    OthersUntouched(log, t);
  }

  lemma NewEntry(log: seq<Timed>, t: Timed)
    requires !Known(Mentioned(log), t) && |Mentioned(log)| < MAX_BROWSE_RECORDS
    ensures Entry(log + [t], InstanceOf(t.reply))
         == Touched(Record(InstanceOf(t.reply), [], 0, [], [], 0), t.reply, t.at)
  {
    EntryStep(log, t, InstanceOf(t.reply));
    UnknownWasNeverHeard(log, t);
    NeverHeard(log, InstanceOf(t.reply));
  }

  lemma CacheGrows(log: seq<Timed>, t: Timed)
    requires !Known(Mentioned(log), t) && |Mentioned(log)| < MAX_BROWSE_RECORDS
    ensures Cache(log + [t]) == Cache(log) + [Entry(log + [t], InstanceOf(t.reply))]
  {
    MentionedSnoc(log, t);
    OthersUntouched(log, t);
  }

  /** A reply about an unknown instance adds one entry, or nothing once 32 are held. */
  lemma CacheAdd(log: seq<Timed>, t: Timed)
    requires !Known(Mentioned(log), t)
    ensures |Mentioned(log)| == MAX_BROWSE_RECORDS ==> Cache(log + [t]) == Cache(log)
    ensures |Mentioned(log)| < MAX_BROWSE_RECORDS ==>
              Cache(log + [t]) == Cache(log) + [Touched(Record(InstanceOf(t.reply), [], 0, [], [], 0), t.reply, t.at)]
  {
    if |Mentioned(log)| == MAX_BROWSE_RECORDS {
      CacheFull(log, t);
    } else if |Mentioned(log)| < MAX_BROWSE_RECORDS {
      CacheGrows(log, t);
      NewEntry(log, t);
    }
  }

  /** What `services` shows of the entries that have not expired. */
  function Show(r: Record): Discovered {
    Discovered(r.instance, r.hostname, r.addresses, r.txt, r.port)
  }

  function Live(rs: seq<Record>, now: nat): seq<Discovered> {
    if rs == [] then [] else
      var init, r := Live(rs[..|rs| - 1], now), rs[|rs| - 1];
      if r.expires <= now then init else init + [Show(r)]
  }

  lemma {:induction false} LiveIsExact(rs: seq<Record>, now: nat, d: Discovered)
    ensures d in Live(rs, now) <==> exists i | 0 <= i < |rs| :: now < rs[i].expires && Show(rs[i]) == d
  {
    if rs != [] {
      var init := rs[..|rs| - 1];
      LiveIsExact(init, now, d);
      if i :| 0 <= i < |init| && now < init[i].expires && Show(init[i]) == d {
        assert now < rs[i].expires && Show(rs[i]) == d;
      }
    }
  }

  /** What is shown of each record depends on that record alone, and the order stays. */
  lemma {:induction false} LiveConcat(a: seq<Record>, b: seq<Record>, now: nat)
    ensures Live(a + b, now) == Live(a, now) + Live(b, now)
    decreases |b|
  {
    if b == [] {
      assert a + b == a;
    } else {
      assert (a + b)[..|a + b| - 1] == a + b[..|b| - 1];
      LiveConcat(a, b[..|b| - 1], now);
    }
  }

  predicate Listed(log: seq<Timed>, now: nat, name: bytes) {
    exists d :: d in Live(Cache(log), now) && d.instance == name
  }

  lemma ListedIsUnexpired(log: seq<Timed>, now: nat, name: bytes)
    requires Listed(log, now, name)
    ensures name in Mentioned(log) && now < LastHeard(log, name) + CACHE_TTL_MS
  {
    var rs := Cache(log);
    var d :| d in Live(rs, now) && d.instance == name;
    LiveIsExact(rs, now, d);
    var j :| 0 <= j < |rs| && now < rs[j].expires && Show(rs[j]) == d;
    assert rs[j] == Entry(log, Mentioned(log)[j]);
  }

  lemma UnexpiredIsListed(log: seq<Timed>, now: nat, name: bytes)
    requires name in Mentioned(log) && now < LastHeard(log, name) + CACHE_TTL_MS
    ensures Listed(log, now, name)
  {
    var names, rs := Mentioned(log), Cache(log);
    var i :| 0 <= i < |names| && names[i] == name;
    assert rs[i] == Entry(log, name);
    LiveIsExact(rs, now, Show(rs[i]));
    assert Show(rs[i]).instance == name;
  }

  /** The list handed out names an instance exactly when it is one of the first 32 the
      log mentions and some reply about it is younger than the TTL. */
  lemma ServicesRefineTheLog(log: seq<Timed>, now: nat, name: bytes)
    requires Ordered(log)
    ensures Listed(log, now, name) <==> name in Mentioned(log) && HeardLately(log, name, now)
  {
    if Listed(log, now, name) {
      ListedIsUnexpired(log, now, name);
    }
    if name in Mentioned(log) {
      var i :| 0 <= i < |Mentioned(log)| && Mentioned(log)[i] == name;
      MentionedWasHeard(log, i);
      LiveMeansRecentlyHeard(log, name, now);
      if HeardLately(log, name, now) {
        UnexpiredIsListed(log, now, name);
      }
    }
  }

  // -------------------------------------------------------------------------
  // Which replies are about one instance
  // -------------------------------------------------------------------------

  /** What stands before the first dot of a name, or all of it. */
  predicate IsLabel(l: bytes, name: bytes) {
    DOT !in l && l <= name && (l == name || name[|l|] == DOT)
  }

  lemma LabelIsUnique(a: bytes, b: bytes, name: bytes)
    requires IsLabel(a, name) && IsLabel(b, name)
    ensures a == b
  {
    assert forall i | 0 <= i < |b| :: b[i] == name[i] != DOT;
    assert forall i | 0 <= i < |a| :: a[i] == name[i] != DOT;
    assert a == name[..|a|] && b == name[..|b|];
  }

  /** An instance is named by the label of the reply, then the service, then ".local". */
  lemma InstanceIsQualified(r: Reply, l: bytes)
    requires IsLabel(l, r.name)
    ensures InstanceOf(r) == l + Ascii(".") + r.service + Ascii(".local")
  {
    var cut := r.name[..Find(r.name, DOT)];
    assert IsLabel(cut, r.name);
    LabelIsUnique(l, cut, r.name);
    assert Ascii(".") == [DOT] && Ascii(".local") == LOCAL;
  }

  lemma EveryNameHasALabel(name: bytes) returns (l: bytes)
    ensures IsLabel(l, name)
  {
    l := name[..Find(name, DOT)];
  }

  function Tail(service: bytes): bytes {
    [DOT] + (service + LOCAL)
  }

  lemma InstanceIsLabelAndTail(r: Reply, l: bytes)
    requires IsLabel(l, r.name)
    ensures InstanceOf(r) == l + Tail(r.service)
  {
    InstanceIsQualified(r, l);
    assert Ascii(".") == [DOT] && Ascii(".local") == LOCAL;
  }

  lemma CanonOfTail(service: bytes)
    ensures Canon(Tail(service)) == [DOT] + Canon(service + LOCAL)
  {
    CanonConcat([DOT], service + LOCAL);
    assert Canon([DOT]) == [DOT];
  }

  lemma TailsAgree(service: bytes, other: bytes)
    requires NUL !in service && NUL !in other && Canon(service) == Canon(other)
    ensures Canon(Tail(service)) == Canon(Tail(other))
  {
    CanonOfTail(service);
    CanonOfTail(other);
    CanonConcat(service, LOCAL);
    CanonConcat(other, LOCAL);
  }

  lemma CanonHasNoDot(l: bytes)
    requires DOT !in l
    ensures DOT !in Canon(l)
  {
    CanonIsClean(l);
    assert forall k | 0 <= k < |Canon(l)| :: Canon(l)[k] == Lower(l[k]) && l[k] != DOT;
  }

  lemma CutAtDot(a: bytes, x: bytes, b: bytes, y: bytes)
    requires DOT !in a && DOT !in b && a + [DOT] + x == b + [DOT] + y
    ensures a == b && x == y
  {
    var p, q := a + [DOT] + x, b + [DOT] + y;
    assert p[|a|] == DOT && q[|b|] == DOT;
    assert forall i | 0 <= i < |a| :: p[i] == a[i];
    assert forall i | 0 <= i < |b| :: q[i] == b[i];
    assert |a| == |b|;
    assert a == p[..|a|] && b == q[..|b|] && x == p[|a| + 1..] && y == q[|b| + 1..];
  }

  /** Two replies accepted for one service are about the same instance exactly if their names
      agree, ignoring case, up to the first dot. */
  lemma SameInstanceExactly(r: Reply, s: Reply, l: bytes, m: bytes)
    requires IsLabel(l, r.name) && IsLabel(m, s.name) && NUL !in l && NUL !in m
    requires NUL !in r.service && NUL !in s.service && Canon(r.service) == Canon(s.service)
    ensures Canon(InstanceOf(r)) == Canon(InstanceOf(s)) <==> Canon(l) == Canon(m)
  {
    InstanceIsLabelAndTail(r, l);
    InstanceIsLabelAndTail(s, m);
    CanonConcat(l, Tail(r.service));
    CanonConcat(m, Tail(s.service));
    TailsAgree(r.service, s.service);
    CanonOfTail(r.service);
    CanonHasNoDot(l);
    CanonHasNoDot(m);
    var x := Canon(r.service + LOCAL);
    assert Canon(l) + ([DOT] + x) == Canon(l) + [DOT] + x;
    assert Canon(m) + ([DOT] + x) == Canon(m) + [DOT] + x;
    if Canon(InstanceOf(r)) == Canon(InstanceOf(s)) {
      CutAtDot(Canon(l), x, Canon(m), x);
    }
  }

  lemma DotOfInstance(s: Reply, m: bytes)
    requires IsLabel(m, s.name)
    ensures DOT in Canon(InstanceOf(s)) <==> NUL !in m
  {
    InstanceIsLabelAndTail(s, m);
    CanonConcat(m, Tail(s.service));
    CanonHasNoDot(m);
    CanonOfTail(s.service);
    assert ([DOT] + Canon(s.service + LOCAL))[0] == DOT;
  }

  /** With a NUL before the first dot, two names are told apart up to that NUL. */
  lemma SameInstanceBeforeNul(r: Reply, s: Reply, l: bytes, m: bytes)
    requires IsLabel(l, r.name) && IsLabel(m, s.name) && NUL in l
    ensures Canon(InstanceOf(r)) == Canon(InstanceOf(s)) <==> NUL in m && Canon(l) == Canon(m)
  {
    InstanceIsLabelAndTail(r, l);
    InstanceIsLabelAndTail(s, m);
    DotOfInstance(r, l);
    DotOfInstance(s, m);
    CanonConcat(l, Tail(r.service));
    CanonConcat(m, Tail(s.service));
  }

  /** So a peer that first gives its bare name and then a resolved one has one record. */
  lemma OnePeerOneRecord(r: Reply, s: Reply, at: nat, later: nat, host: bytes)
    requires NUL !in r.service && r.service == s.service && DOT !in r.name && NUL !in r.name
    requires s.name == r.name + [DOT] + host
    ensures |Cache([Timed(r, at), Timed(s, later)])| == 1
  {
    var log := [Timed(r, at), Timed(s, later)];
    assert IsLabel(r.name, r.name) && IsLabel(r.name, s.name);
    SameInstanceExactly(r, s, r.name, r.name);
    assert log[..1] == [Timed(r, at)] && log[..1][..0] == [];
    assert Mentioned(log[..1]) == [InstanceOf(r)];
    assert About(Timed(s, later), Mentioned(log[..1])[0]);
  }

  /** A reply is accepted exactly if a browse is on, it carries a record of that service and it
      names something. */
  lemma AcceptedExactly(service: bytes, r: Reply)
    requires NUL !in service
    ensures Accepted(service, r) <==>
            service != [] && r.hasRecord && r.name != [] && Canon(r.service) == Canon(service)
  {
    CanonIsClean(service);
  }

  // -------------------------------------------------------------------------
  // What is listed beside the name
  // -------------------------------------------------------------------------

  /** What a reply may tell of an instance. */
  datatype Field = Target | Text | Address

  /** A host and port take a port and a dot in the name. */
  predicate Tells(t: Timed, name: bytes, f: Field) {
    About(t, name)
    && match f
       case Target => t.reply.port != 0 && DOT in t.reply.name
       case Text => t.reply.txt.Some?
       case Address => t.reply.addr.Some?
  }

  /** From entry k on, the log says nothing of that. */
  predicate Quiet(log: seq<Timed>, name: bytes, f: Field, k: nat) {
    forall j | k <= j < |log| :: !Tells(log[j], name, f)
  }

  predicate LatestAt(log: seq<Timed>, name: bytes, f: Field, k: nat) {
    k < |log| && Tells(log[k], name, f) && Quiet(log, name, f, k + 1)
  }

  lemma {:induction false} SomeLatest(log: seq<Timed>, name: bytes, f: Field, n: nat)
    requires n <= |log| && Quiet(log, name, f, n)
    ensures Quiet(log, name, f, 0) || exists k: nat :: LatestAt(log, name, f, k)
  {
    if n > 0 {
      if Tells(log[n - 1], name, f) {
        assert LatestAt(log, name, f, n - 1);
      } else {
        SomeLatest(log, name, f, n - 1);
      }
    }
  }

  lemma LatestBefore(log: seq<Timed>, name: bytes, f: Field, k: nat)
    requires k + 1 < |log| && LatestAt(log, name, f, k)
    ensures LatestAt(log[..|log| - 1], name, f, k) && !Tells(log[|log| - 1], name, f)
  {
  }

  /** Host and port are those of the last reply that tells them. */
  lemma {:induction false} TargetIsLatest(log: seq<Timed>, name: bytes, k: nat)
    requires LatestAt(log, name, Target, k)
    ensures LastTarget(log, name) == (log[k].reply.name, log[k].reply.port)
  {
    if k + 1 < |log| {
      LatestBefore(log, name, Target, k);
      TargetIsLatest(log[..|log| - 1], name, k);
    }
  }

  /** The text is that of the last reply that has one. */
  lemma {:induction false} TextIsLatest(log: seq<Timed>, name: bytes, k: nat)
    requires LatestAt(log, name, Text, k)
    ensures LastTxt(log, name) == SplitAll(Strings(log[k].reply.txt.value))
  {
    if k + 1 < |log| {
      LatestBefore(log, name, Text, k);
      TextIsLatest(log[..|log| - 1], name, k);
    }
  }

  /** The address is that of the last reply that has one. */
  lemma {:induction false} AddressIsLatest(log: seq<Timed>, name: bytes, k: nat)
    requires LatestAt(log, name, Address, k)
    ensures LastAddress(log, name) == [log[k].reply.addr.value]
  {
    if k + 1 < |log| {
      LatestBefore(log, name, Address, k);
      AddressIsLatest(log[..|log| - 1], name, k);
    }
  }

  /** What no reply tells stays empty. */
  lemma {:induction false} UntoldIsEmpty(log: seq<Timed>, name: bytes)
    ensures Quiet(log, name, Target, 0) ==> LastTarget(log, name) == ([], 0)
    ensures Quiet(log, name, Text, 0) ==> LastTxt(log, name) == []
    ensures Quiet(log, name, Address, 0) ==> LastAddress(log, name) == []
  {
    if log != [] {
      var init, t := log[..|log| - 1], log[|log| - 1];
      UntoldIsEmpty(init, name);
      forall f | Quiet(log, name, f, 0) ensures Quiet(init, name, f, 0) && !Tells(t, name, f) {
      }
    }
  }

  /** What is listed of an instance is just that. */
  lemma ListedAsHeard(log: seq<Timed>, now: nat, d: Discovered)
    requires d in Live(Cache(log), now)
    ensures (d.hostname, d.port) == LastTarget(log, d.instance)
    ensures d.txt == LastTxt(log, d.instance) && d.addresses == LastAddress(log, d.instance)
  {
    LiveIsExact(Cache(log), now, d);
    var j :| 0 <= j < |Cache(log)| && now < Cache(log)[j].expires && Show(Cache(log)[j]) == d;
    assert Cache(log)[j] == Entry(log, Mentioned(log)[j]);
  }

  // -------------------------------------------------------------------------
  // The retry schedule
  // -------------------------------------------------------------------------

  /** When the query is resent, given the deadline, the resends left and the poll times. */
  function Resends(next: nat, left: nat, polls: seq<nat>): seq<nat>
    decreases polls
  {
    if polls == [] || left == 0 then []
    else if polls[0] < next then Resends(next, left, polls[1..])
    else [polls[0]] + Resends(polls[0] + RETRY_MS, left - 1, polls[1..])
  }

  /** The deadline and the resends left after those polls. */
  function Remaining(next: nat, left: nat, polls: seq<nat>): (nat, nat)
    decreases polls
  {
    if polls == [] || left == 0 then (next, left)
    else if polls[0] < next then Remaining(next, left, polls[1..])
    else Remaining(polls[0] + RETRY_MS, left - 1, polls[1..])
  }

  lemma {:induction false} OneMorePoll(next: nat, left: nat, polls: seq<nat>, now: nat)
    ensures
      var (n, l) := Remaining(next, left, polls);
      var fires := l != 0 && now >= n;
      && Resends(next, left, polls + [now]) == Resends(next, left, polls) + (if fires then [now] else [])
      && Remaining(next, left, polls + [now]) == if fires then (now + RETRY_MS, l - 1) else (n, l)
    decreases polls
  {
    if polls == [] {
      assert polls + [now] == [now] && [now][1..] == [];
      assert left > 0 ==> Resends(now + RETRY_MS, left - 1, []) == [];
    } else if left != 0 {
      assert (polls + [now])[1..] == polls[1..] + [now];
      if polls[0] < next {
        OneMorePoll(next, left, polls[1..], now);
      } else {
        OneMorePoll(polls[0] + RETRY_MS, left - 1, polls[1..], now);
      }
    }
  }

  /** Bounded in count and in rate, whatever the polls. */
  lemma {:induction false} ResendsAreBounded(next: nat, left: nat, polls: seq<nat>)
    ensures var r := Resends(next, left, polls);
            && |r| <= left
            && (r != [] ==> r[0] >= next)
            && forall i | 0 < i < |r| :: r[i] >= r[i - 1] + 1000
    decreases polls
  {
    if polls != [] && left != 0 {
      if polls[0] < next {
        ResendsAreBounded(next, left, polls[1..]);
      } else {
        ResendsAreBounded(polls[0] + RETRY_MS, left - 1, polls[1..]);
      }
    }
  }

  function Times(k: nat, step: nat): nat {
    if k == 0 then 0 else Times(k - 1, step) + step
  }

  /** Polls that follow `prev` in order, never more than `d` apart. */
  predicate Steady(prev: nat, polls: seq<nat>, d: nat)
    decreases polls
  {
    polls == [] || (prev <= polls[0] <= prev + d && Steady(polls[0], polls[1..], d))
  }

  function Last(prev: nat, polls: seq<nat>): nat {
    if polls == [] then prev else polls[|polls| - 1]
  }

  /** With steady polls that go on long enough, every resend is issued, the k-th no later
      than k steps of RETRY_MS + d after its deadline, give or take one gap. */
  lemma {:induction false} ResendsAllHappen(prev: nat, next: nat, left: nat, polls: seq<nat>, d: nat, step: nat)
    requires step == RETRY_MS + d && left > 0 && prev <= next && Steady(prev, polls, d)
    requires Last(prev, polls) >= next + d + Times(left - 1, step) && polls != []
    ensures |Resends(next, left, polls)| == left
    ensures forall k | 0 <= k < left :: Resends(next, left, polls)[k] <= next + d + Times(k, step)
    decreases polls
  {
    var now, rest := polls[0], polls[1..];
    assert Last(now, rest) == Last(prev, polls);
    if now < next {
      ResendsAllHappen(now, next, left, rest, d, step);
    } else if left == 1 {
      assert Resends(now + RETRY_MS, 0, rest) == [];
      assert Resends(next, left, polls) == [now];
    } else {
      ResendsAllHappen(now, now + RETRY_MS, left - 1, rest, d, step);
      var tail := Resends(now + RETRY_MS, left - 1, rest);
      assert Resends(next, left, polls) == [now] + tail;
      forall k | 0 < k < left ensures ([now] + tail)[k] <= next + d + Times(k, step) {
        assert tail[k - 1] <= now + RETRY_MS + d + Times(k - 1, step);
      }
    }
  }

  /** Browsing from time `start`: all five queries are out within four times a second and the
      gap between polls. */
  lemma BrowseCompletes(start: nat, polls: seq<nat>, d: nat)
    requires polls != [] && Steady(start, polls, d)
    requires Last(start, polls) >= start + 4 * (1000 + d)
    ensures var r := Resends(start + RETRY_MS, MAX_RETRIES, polls);
            |r| == 4 && r[3] <= start + 4 * (1000 + d)
  {
    var step := RETRY_MS + d;
    assert Times(1, step) == Times(0, step) + step == step;
    assert Times(3, step) == Times(2, step) + step == Times(1, step) + 2 * step;
    ResendsAllHappen(start, start + RETRY_MS, MAX_RETRIES, polls, d, RETRY_MS + d);
  }

  // -------------------------------------------------------------------------
  // The name a query carries
  // -------------------------------------------------------------------------

  function Trimmed(name: bytes): bytes {
    if name != [] && name[|name| - 1] == DOT then name[..|name| - 1] else name
  }

  predicate EndsLocal(name: bytes) {
    |name| >= 6 && Fold(name[|name| - 6..]) == Fold(LOCAL)
  }

  function Qualified(name: cstring): bytes {
    var t := Trimmed(name);
    if EndsLocal(t) then t else t + LOCAL
  }

  lemma LocalIsClean()
    ensures NUL !in LOCAL && LOCAL[5] != DOT && Fold(LOCAL) == LOCAL
  {
    assert Fold(LOCAL) == LOCAL;
  }

  /** One final dot goes; ".local" is added, once, to what does not already end so. */
  lemma QualifiedExactly(name: cstring, bare: bytes)
    requires name == bare + [DOT] || (name == bare && (bare == [] || bare[|bare| - 1] != DOT))
    ensures Qualified(name)
         == if |bare| >= 6 && Fold(bare[|bare| - 6..]) == Ascii(".local") then bare else bare + Ascii(".local")
  {
    assert Ascii(".local") == LOCAL;
    LocalIsClean();
    if name == bare + [DOT] {
      assert name[..|name| - 1] == bare;
    }
  }

  /** A qualified name is always under ".local", and qualifying again changes nothing. */
  lemma QualifiedIsStable(name: cstring)
    ensures EndsLocal(Qualified(name)) && NUL !in Qualified(name)
    ensures Qualified(Qualified(name)) == Qualified(name)
  {
    LocalIsClean();
    var q := Qualified(name);
    if !EndsLocal(Trimmed(name)) {
      assert q[|q| - 6..] == LOCAL;
    }
    assert Fold(q[|q| - 6..])[5] == Lower(q[|q| - 1]) == LOCAL[5];
    assert Trimmed(q) == q;
  }

  // -------------------------------------------------------------------------
  // The browser in place
  // -------------------------------------------------------------------------

  class Browser {
    var records: seq<Record>
    var service: bytes
    var nextQuery: nat
    var retriesLeft: nat
    var listening: bool

    // since the last browse()
    ghost var log: seq<Timed>
    ghost var startedAt: nat
    ghost var polls: seq<nat>
    ghost var queries: seq<nat>

    /** The cache and the schedule agree with what has happened since browse(). */
    ghost predicate Valid()
      reads this
    {
      && NUL !in service
      && records == Cache(log)
      && (service == [] ==> log == [])
      && (service != [] ==>
            && queries == [startedAt] + Resends(startedAt + RETRY_MS, MAX_RETRIES, polls)
            && (nextQuery, retriesLeft) == Remaining(startedAt + RETRY_MS, MAX_RETRIES, polls))
    }

    constructor ()
      ensures Valid() && service == [] && records == [] && !listening
    {
      records, service, nextQuery, retriesLeft, listening := [], [], 0, 0, false;
      log, startedAt, polls, queries := [], 0, [], [];
    }

    method CancelBrowse()
      modifies this
      ensures Valid() && service == [] && records == []
      ensures queries == old(queries) && listening == old(listening)
    {
      service := [];
      retriesLeft := 0;
      records := [];
      log := [];
    }

    /** What `end` does to the browser: no query is sent any more. */
    method StopListening()
      modifies this
      ensures Valid() && service == [] && records == [] && !listening && queries == old(queries)
    {
      listening := false;
      CancelBrowse();
    }

    /** What `begin` does, once the manager has opened the listener or failed to. */
    method Listen(started: bool)
      requires Valid()
      modifies `listening
      ensures Valid() && listening == started
    {
      listening := started;
    }

    /** `sent` is what the network said of the first query. */
    method Browse(srvcproto: Option<cstring>, now: nat, sent: bool) returns (ok: bool)
      modifies this
      ensures Valid() && listening == old(listening) && records == []
      ensures srvcproto.None? || srvcproto.value == [] ==> !ok && service == [] && queries == old(queries)
      ensures srvcproto.Some? && srvcproto.value != [] ==>
                && ok == (listening && sent) && service == Trimmed(srvcproto.value)
                && startedAt == now && queries == [now] && polls == []
    {
      CancelBrowse();
      if srvcproto.None? || srvcproto.value == [] {
        return false;
      }
      service := Trimmed(srvcproto.value);
      ok := listening && sent;
      nextQuery := now + RETRY_MS;
      retriesLeft := MAX_RETRIES;
      startedAt, polls, queries := now, [], [now];
    }

    method PollBrowse(now: nat)
      requires Valid()
      modifies this
      ensures Valid() && records == old(records) && service == old(service) && log == old(log)
      ensures startedAt == old(startedAt) && polls == if service == [] then old(polls) else old(polls) + [now]
      ensures queries == old(queries) || queries == old(queries) + [now]
      ensures service == [] ==> queries == old(queries)
    {
      if service != [] {
        OneMorePoll(startedAt + RETRY_MS, MAX_RETRIES, polls, now);
        polls := polls + [now];
      }
      if service == [] || retriesLeft <= 0 {
        return;
      }
      if now < nextQuery {
        return;
      }
      retriesLeft := retriesLeft - 1;
      nextQuery := now + RETRY_MS;
      queries := queries + [now];
    }

    /** Bounded in count and in rate over any run of polls. */
    lemma QueriesAreBounded()
      requires Valid() && service != []
      ensures 1 <= |queries| <= 5
      ensures forall i | 0 < i < |queries| :: queries[i] >= queries[i - 1] + 1000
    {
      ResendsAreBounded(startedAt + RETRY_MS, MAX_RETRIES, polls);
    }

    method FindRecord(ghost t: Timed, instance: bytes) returns (i: nat)
      requires Valid() && Canon(instance) == Canon(InstanceOf(t.reply))
      ensures i <= |records|
      ensures i < |records| ==> About(t, Mentioned(log)[i])
      ensures i == |records| ==> !Known(Mentioned(log), t)
    {
      i := 0;
      while i < |records| && Canon(records[i].instance) != Canon(instance)
        invariant 0 <= i <= |records|
        invariant forall k | 0 <= k < i :: !About(t, Mentioned(log)[k])
      {
        i := i + 1;
      }
    }

    /** What the tail of `handleResponse` does to the record it found or made. */
    static method Merge(found: Record, r: Reply, now: nat) returns (rec: Record)
      ensures rec == Touched(found, r, now)
    {
      rec := found.(expires := now + CACHE_TTL_MS);
      if r.port != 0 && DOT in r.name {
        rec := rec.(hostname := r.name, port := r.port);
      }
      if r.txt.Some? {
        var txt := ParseTxt(r.txt.value);
        rec := rec.(txt := txt);
      }
      if r.addr.Some? {
        rec := rec.(addresses := [r.addr.value]);
      }
    }

    method HandleResponse(r: Reply, now: nat)
      requires Valid()
      modifies `records, `log
      ensures Valid()
      ensures log == if Accepted(service, r) then old(log) + [Timed(r, now)] else old(log)
      ensures log != old(log) <==>
                service != [] && r.hasRecord && r.name != [] && Canon(r.service) == Canon(service)
      ensures service == old(service) && queries == old(queries) && polls == old(polls)
    {
      AcceptedExactly(service, r);
      if service == [] || !r.hasRecord {
        return;
      }
      if r.service == [] || Canon(r.service) != Canon(service) || r.name == [] {
        return;
      }
      var instance := r.name[..Find(r.name, DOT)] + [DOT] + r.service + LOCAL;
      Enter(r, now, instance);
    }

    /** Finds or makes the record of an accepted reply, and merges the reply into it. */
    method Enter(r: Reply, now: nat, instance: bytes)
      requires Valid() && service != [] && instance == InstanceOf(r)
      modifies `records, `log
      ensures log == old(log) + [Timed(r, now)] && records == Cache(log)
    {
      ghost var t := Timed(r, now);
      var i := FindRecord(t, instance);
      MentionedIsBoundedAndDistinct(log);
      if i == |records| {
        CacheAdd(log, t);
        if |records| >= MAX_BROWSE_RECORDS {
          log := log + [t];
          return;
        }
        records := records + [Record(instance, [], 0, [], [], 0)];
      } else {
        CacheTouch(log, t, i);
      }
      var rec := Merge(records[i], r, now);
      records := records[i := rec];
      log := log + [t];
    }

    method Services(now: nat) returns (result: seq<Discovered>)
      requires Valid()
      ensures result == Live(Cache(log), now)
    {
      result := [];
      var i := 0;
      while i < |records|
        invariant 0 <= i <= |records| && result == Live(records[..i], now)
      {
        assert records[..i + 1][..i] == records[..i];
        if now < records[i].expires {
          result := result + [Show(records[i])];
        }
        i := i + 1;
      }
      assert records[..i] == records;
    }
  }
}
