/** The services a device advertises: a table of eight records whose TXT data is
    kept, and edited, in wire format.
 */
module MdnsRegistry {
  import opened Bytes
  import opened MdnsTxt
  import opened Wrappers

  const MAX_SERVICES := 8
  const NAME_SIZE := 64
  const TXT_SIZE := 256

  type port = p: int | 0 <= p < 0x1_0000

  datatype Service = Service(name: cstring, txt: bytes, port: port)

  /** "._tcp" or "._udp" */
  predicate IsTransport(t: bytes)
    ensures IsTransport(t) ==> |t| == 5 && t[0] == DOT && forall k | 1 <= k < 5 :: t[k] != DOT
  {
    t == [46, 95, 116, 99, 112] || t == [46, 95, 117, 100, 112]
  }

  /** One "_label" followed by "._tcp" or "._udp", short enough for its slot. */
  predicate GoodName(n: bytes) {
    && 6 <= |n| < NAME_SIZE
    && n[0] == UNDERSCORE
    && DOT !in n[..|n| - 5]
    && IsTransport(n[|n| - 5..])
  }

  // -------------------------------------------------------------------------
  // TXT data as a map from case-folded keys to strings
  // -------------------------------------------------------------------------

  /** The part before "=", as `mg_casecmp` compares it. */
  function KeyOf(s: bytes): bytes {
    Canon(s[..Find(s, EQUALS)])
  }

  /** The strings that stay when `key` is set: empty ones go too. */
  function Kept(ss: seq<bytes>, key: bytes): (r: seq<bytes>)
    ensures forall s | s in r :: s in ss && s != [] && KeyOf(s) != Canon(key)
  {
    if ss == [] then [] else
      var init, s := ss[..|ss| - 1], ss[|ss| - 1];
      Kept(init, key) + if s != [] && KeyOf(s) != Canon(key) then [s] else []
  }

  /** What the strings say: for each key the string that sets it. */
  function KeyMap(ss: seq<bytes>): map<bytes, bytes> {
    if ss == [] then map[] else
      var init, s := KeyMap(ss[..|ss| - 1]), ss[|ss| - 1];
      if s == [] then init else init[KeyOf(s) := s]
  }

  predicate DistinctKeys(ss: seq<bytes>) {
    forall i, j | 0 <= i < j < |ss| && ss[i] != [] && ss[j] != [] :: KeyOf(ss[i]) != KeyOf(ss[j])
  }

  function Entry(key: cstring, value: cstring): cstring {
    key + [EQUALS] + value
  }

  predicate GoodKey(key: bytes) {
    key != [] && EQUALS !in key
  }

  lemma EntrySplits(key: cstring, value: cstring)
    requires GoodKey(key)
    ensures KeyOf(Entry(key, value)) == Canon(key)
    ensures Split(Entry(key, value)) == Pair(key, value)
  {
    var e := Entry(key, value);
    assert e[..|key|] == key;
    FindIsUnique(e, EQUALS, |key|);
    assert e[|key| + 1..] == value;
  }

  lemma KeyMapSnoc(ss: seq<bytes>, s: bytes)
    ensures KeyMap(ss + [s]) == if s == [] then KeyMap(ss) else KeyMap(ss)[KeyOf(s) := s]
  {
    assert (ss + [s])[..|ss|] == ss;
  }

  lemma KeptSnoc(ss: seq<bytes>, s: bytes, key: bytes)
    ensures Kept(ss + [s], key) == if s != [] && KeyOf(s) != Canon(key) then Kept(ss, key) + [s] else Kept(ss, key)
  {
    assert (ss + [s])[..|ss|] == ss;
    assert Kept(ss, key) + [] == Kept(ss, key);
  }

  /** Without one key, a map set at another, or at that one. */
  lemma DropAndSet(m: map<bytes, bytes>, drop: bytes, k: bytes, v: bytes)
    ensures k != drop ==> (m - {drop})[k := v] == m[k := v] - {drop}
    ensures k == drop ==> m[k := v] - {drop} == m - {drop}
  {
  }

  lemma {:induction false} KeptDropsTheKey(ss: seq<bytes>, key: bytes)
    ensures KeyMap(Kept(ss, key)) == KeyMap(ss) - {Canon(key)}
  {
    if ss != [] {
      var init, s := ss[..|ss| - 1], ss[|ss| - 1];
      assert ss == init + [s];
      KeptDropsTheKey(init, key);
      KeptSnoc(init, s, key);
      KeyMapSnoc(init, s);
      KeyMapSnoc(Kept(init, key), s);
      DropAndSet(KeyMap(init), Canon(key), KeyOf(s), s);
    }
  }

  /** Setting a key on the wire is a map update on what the wire says. */
  lemma SettingIsAMapUpdate(ss: seq<bytes>, key: cstring, value: cstring)
    requires GoodKey(key)
    ensures KeyMap(Kept(ss, key) + [Entry(key, value)]) == KeyMap(ss)[Canon(key) := Entry(key, value)]
  {
    KeyMapSnoc(Kept(ss, key), Entry(key, value));
    KeptDropsTheKey(ss, key);
    EntrySplits(key, value);
  }

  lemma {:induction false} KeptStaysDistinct(ss: seq<bytes>, key: bytes)
    requires DistinctKeys(ss)
    ensures DistinctKeys(Kept(ss, key))
  {
    if ss != [] {
      var init, s := ss[..|ss| - 1], ss[|ss| - 1];
      assert forall i | 0 <= i < |init| :: init[i] == ss[i];
      KeptStaysDistinct(init, key);
      var k := Kept(init, key);
      if s != [] {
        forall i | 0 <= i < |k| ensures KeyOf(k[i]) != KeyOf(s) {
          assert k[i] in k;
          var j :| 0 <= j < |init| && init[j] == k[i];
        }
      }
    }
  }

  /** The strings of a service after `addServiceTxt`, as a plain list. */
  function WithKey(ss: seq<bytes>, key: cstring, value: cstring): seq<bytes> {
    Kept(ss, key) + [Entry(key, value)]
  }

  lemma WithKeyStaysGood(ss: seq<bytes>, key: cstring, value: cstring)
    requires GoodKey(key) && |Entry(key, value)| <= 255
    requires Fits(ss) && DistinctKeys(ss) && Clean(ss)
    ensures var after := WithKey(ss, key, value); Fits(after) && DistinctKeys(after) && Clean(after)
  {
    KeptStaysDistinct(ss, key);
    EntrySplits(key, value);
    var k := Kept(ss, key);
    forall i | 0 <= i < |k| ensures |k[i]| <= 255 && NUL !in k[i] && KeyOf(k[i]) != Canon(key) {
      assert k[i] in k;
      var j :| 0 <= j < |ss| && ss[j] == k[i];
    }
  }

  /** All strings came in as C strings. */
  predicate Clean(ss: seq<bytes>) {
    forall i | 0 <= i < |ss| :: NUL !in ss[i]
  }

  // -------------------------------------------------------------------------
  // The registry as a value
  // -------------------------------------------------------------------------

  predicate GoodService(s: Service) {
    && GoodName(s.name)
    && 1 <= |s.txt| <= TXT_SIZE
    && WellFormed(s.txt)
    && DistinctKeys(Strings(s.txt))
    && Clean(Strings(s.txt))
  }

  predicate DistinctNames(view: seq<Service>) {
    forall i, j | 0 <= i < j < |view| :: Canon(view[i].name) != Canon(view[j].name)
  }

  predicate Good(view: seq<Service>) {
    && |view| <= MAX_SERVICES
    && (forall i | 0 <= i < |view| :: GoodService(view[i]))
    && DistinctNames(view)
  }

  /** The first service of that name, ignoring case, or the length of the table. */
  function Lookup(view: seq<Service>, name: bytes): (i: nat)
    ensures i <= |view|
    ensures i < |view| ==> Canon(view[i].name) == Canon(name)
    ensures forall k | 0 <= k < i :: Canon(view[k].name) != Canon(name)
  {
    if view == [] || Canon(view[0].name) == Canon(name) then 0
    else
      var i := Lookup(view[1..], name);
      assert forall k | 0 < k <= i :: view[k] == view[1..][k - 1] || k > |view[1..]|;
      1 + i
  }

  /** The position of a service spelled exactly so. */
  function Position(view: seq<Service>, name: bytes): (i: nat)
    ensures i <= |view|
    ensures i < |view| ==> view[i].name == name
    ensures forall k | 0 <= k < i :: view[k].name != name
  {
    if view == [] || view[0].name == name then 0
    else
      var i := Position(view[1..], name);
      assert forall k | 0 < k < i + 1 :: view[k] == view[1..][k - 1];
      1 + i
  }

  predicate CanAdd(view: seq<Service>, name: Option<cstring>, txt: Option<cstring>) {
    && name.Some? && GoodName(name.value)
    && |view| < MAX_SERVICES
    && (txt.Some? ==> |txt.value| <= 255)
    && Lookup(view, name.value) == |view|
  }

  predicate CanSet(view: seq<Service>, service: Option<cstring>, key: Option<cstring>, value: Option<cstring>) {
    && service.Some? && key.Some? && value.Some?
    && GoodKey(key.value)
    && |Entry(key.value, value.value)| <= 255
    && var i := Lookup(view, service.value);
    && i < |view|
    && var after := WithKey(Strings(view[i].txt), key.value, value.value);
    && Fits(after) && |Encode(after)| <= TXT_SIZE
  }

  datatype Op =
    | Add(name: Option<cstring>, port: port, txt: Option<cstring>)
    | Remove(name: Option<cstring>)
    | SetTxt(service: Option<cstring>, key: Option<cstring>, value: Option<cstring>)
    | End

  function Added(view: seq<Service>, name: Option<cstring>, p: port, txt: Option<cstring>): seq<Service> {
    if CanAdd(view, name, txt) then view + [NewService(name.value, p, txt)] else view
  }

  function Removed(view: seq<Service>, name: Option<cstring>): seq<Service> {
    if name.None? || Position(view, name.value) == |view| then view else
      var i := Position(view, name.value);
      view[..i] + view[i + 1..]
  }

  function TxtSet(view: seq<Service>, service: Option<cstring>, key: Option<cstring>, value: Option<cstring>):
      seq<Service>
  {
    if !CanSet(view, service, key, value) then view else
      var i := Lookup(view, service.value);
      view[i := view[i].(txt := Encode(WithKey(Strings(view[i].txt), key.value, value.value)))]
  }

  function Apply(view: seq<Service>, op: Op): seq<Service> {
    match op
    case Add(name, p, txt) => Added(view, name, p, txt)
    case Remove(name) => Removed(view, name)
    case SetTxt(service, key, value) => TxtSet(view, service, key, value)
    case End => []
  }

  function NewService(name: cstring, p: port, txt: Option<cstring>): Service
    requires txt.Some? ==> |txt.value| <= 255
  {
    var text := if txt.Some? then txt.value else [];
    Service(name, [|text|] + text, p)
  }

  lemma NewServiceIsAsTold(name: cstring, p: port, txt: Option<cstring>)
    requires txt.Some? ==> |txt.value| <= 255
    ensures var s := NewService(name, p, txt);
            s.name == name && s.port == p && Strings(s.txt) == [if txt.Some? then txt.value else []]
  {
    var text: bytes := if txt.Some? then txt.value else [];
    EncodeOne(text);
    ReadUndoesPrint([text]);
  }

  lemma LookupMissesExactly(view: seq<Service>, name: bytes)
    ensures Lookup(view, name) == |view| <==> forall k | 0 <= k < |view| :: Canon(view[k].name) != Canon(name)
  {
  }

  lemma PositionMissesExactly(view: seq<Service>, name: bytes)
    ensures Position(view, name) < |view| <==> exists i | 0 <= i < |view| :: view[i].name == name
  {
  }

  /** Removal takes out one service of just that name, and none is left that is spelled so. */
  lemma RemovedIsGone(view: seq<Service>, name: Option<cstring>)
    requires Good(view) && name.Some? && Position(view, name.value) < |view|
    ensures exists i | 0 <= i < |view| ::
              view[i].name == name.value && Removed(view, name) == view[..i] + view[i + 1..]
    ensures forall k | 0 <= k < |Removed(view, name)| :: Removed(view, name)[k].name != name.value
  {
    var i, after := Position(view, name.value), Removed(view, name);
    assert view[i].name == name.value && after == view[..i] + view[i + 1..];
    forall k | 0 <= k < |after| ensures after[k].name != name.value {
      var j := if k < i then k else k + 1;
      assert after[k] == view[j];
      assert Canon(view[j].name) != Canon(view[i].name);
    }
  }

  /** Setting a text changes no name and no port, and no other service. */
  lemma TxtSetTouchesOne(view: seq<Service>, service: Option<cstring>, key: Option<cstring>, value: Option<cstring>)
    requires Good(view)
    ensures
      var after := TxtSet(view, service, key, value);
      && |after| == |view|
      && forall k | 0 <= k < |after| ::
           && after[k].name == view[k].name && after[k].port == view[k].port
           && (service.Some? && Canon(after[k].name) != Canon(service.value) ==> after[k] == view[k])
  {
  }

  function Replay(ops: seq<Op>): seq<Service> {
    if ops == [] then [] else Apply(Replay(ops[..|ops| - 1]), ops[|ops| - 1])
  }

  lemma NewServiceIsGood(name: cstring, p: port, txt: Option<cstring>)
    requires GoodName(name) && (txt.Some? ==> |txt.value| <= 255)
    ensures GoodService(NewService(name, p, txt))
  {
    var text: bytes := if txt.Some? then txt.value else [];
    EncodeOne(text);
    ReadUndoesPrint([text]);
  }

  lemma AddKeepsGood(view: seq<Service>, name: cstring, p: port, txt: Option<cstring>)
    requires Good(view) && CanAdd(view, Some(name), txt)
    ensures Good(view + [NewService(name, p, txt)])
  {
    NewServiceIsGood(name, p, txt);
    var after := view + [NewService(name, p, txt)];
    assert forall i | 0 <= i < |view| :: after[i] == view[i];
  }

  lemma RemoveKeepsGood(view: seq<Service>, i: nat)
    requires Good(view) && i < |view|
    ensures Good(view[..i] + view[i + 1..])
  {
    var after := view[..i] + view[i + 1..];
    assert forall k | 0 <= k < |after| :: after[k] == if k < i then view[k] else view[k + 1];
  }

  lemma TxtOfKnownService(ss: seq<bytes>, key: cstring, value: cstring, s: Service)
    requires GoodKey(key) && |Entry(key, value)| <= 255
    requires GoodService(s) && ss == Strings(s.txt)
    requires Fits(WithKey(ss, key, value)) && |Encode(WithKey(ss, key, value))| <= TXT_SIZE
    ensures GoodService(s.(txt := Encode(WithKey(ss, key, value))))
    ensures Strings(Encode(WithKey(ss, key, value))) == WithKey(ss, key, value)
  {
    var after := WithKey(ss, key, value);
    WithKeyStaysGood(ss, key, value);
    ReadUndoesPrint(after);
    assert after != [];
  }

  lemma SetKeepsGood(view: seq<Service>, i: nat, s: Service)
    requires Good(view) && i < |view| && GoodService(s) && s.name == view[i].name
    ensures Good(view[i := s])
  {
    var after := view[i := s];
    assert forall k | 0 <= k < |after| :: after[k].name == view[k].name;
  }

  lemma ApplyKeepsGood(view: seq<Service>, op: Op)
    requires Good(view)
    ensures Good(Apply(view, op))
  {
    match op
    case Add(name, p, txt) =>
      if CanAdd(view, name, txt) {
        AddKeepsGood(view, name.value, p, txt);
      }
    case Remove(name) =>
      if name.Some? && Position(view, name.value) < |view| {
        RemoveKeepsGood(view, Position(view, name.value));
      }
    case SetTxt(service, key, value) =>
      if CanSet(view, service, key, value) {
        var i := Lookup(view, service.value);
        var before := Strings(view[i].txt);
        TxtOfKnownService(before, key.value, value.value, view[i]);
        SetKeepsGood(view, i, view[i].(txt := Encode(WithKey(before, key.value, value.value))));
      }
    case End =>
  }

  lemma {:induction false} KeptFits(ss: seq<bytes>, key: bytes)
    requires Fits(ss)
    ensures Fits(Kept(ss, key))
  {
    assert forall k | 0 <= k < |Kept(ss, key)| :: Kept(ss, key)[k] in Kept(ss, key);
    assert forall s | s in ss :: |s| <= 255;
  }

  /** The record holds its other texts and this pair, each with a length octet. */
  predicate Roomy(s: Service, key: cstring, value: cstring) {
    && Fits(Kept(Strings(s.txt), key))
    && |Encode(Kept(Strings(s.txt), key))| + 1 + |key| + 1 + |value| <= 256
  }

  lemma RoomForEntry(s: Service, key: cstring, value: cstring)
    requires GoodService(s) && |key| + 1 + |value| <= 255
    ensures |Entry(key, value)| == |key| + 1 + |value|
    ensures Fits(WithKey(Strings(s.txt), key, value))
    ensures |Encode(WithKey(Strings(s.txt), key, value))| <= TXT_SIZE <==> Roomy(s, key, value)
  {
    KeptFits(Strings(s.txt), key);
    EncodeAppend(Kept(Strings(s.txt), key), Entry(key, value));
  }

  lemma LookupExactly(view: seq<Service>, name: bytes, i: nat)
    requires Good(view) && i < |view| && Canon(view[i].name) == Canon(name)
    ensures Lookup(view, name) == i
  {
    assert Lookup(view, name) <= i;
  }

  /** A text can be set exactly if key and value are given, the key is legal, string and record
      fit, and there is a service of that name. */
  lemma SettableExactly(view: seq<Service>, service: cstring, key: cstring, value: cstring)
    requires Good(view)
    ensures CanSet(view, Some(service), Some(key), Some(value)) <==>
              && key != [] && EQUALS !in key && |key| + 1 + |value| <= 255
              && exists i | 0 <= i < |view| :: Canon(view[i].name) == Canon(service) && Roomy(view[i], key, value)
  {
    var i := Lookup(view, service);
    if |key| + 1 + |value| <= 255 {
      if i < |view| {
        RoomForEntry(view[i], key, value);
      }
      forall k | 0 <= k < |view| && Canon(view[k].name) == Canon(service) ensures k == i {
        LookupExactly(view, service, k);
      }
    }
  }

  /** Over every history of calls, every buffer is whole, bounded and sets each key once. */
  lemma {:induction false} EveryReachableRegistryIsGood(ops: seq<Op>)
    ensures Good(Replay(ops))
    ensures |Replay(ops)| <= 8 && forall i | 0 <= i < |Replay(ops)| :: |Replay(ops)[i].txt| <= 256
  {
    if ops != [] {
      EveryReachableRegistryIsGood(ops[..|ops| - 1]);
      ApplyKeepsGood(Replay(ops[..|ops| - 1]), ops[|ops| - 1]);
    }
  }

  /** `end` forgets everything: what comes after it is as on a fresh registry. */
  lemma {:induction false} EndForgets(before: seq<Op>, after: seq<Op>)
    ensures Replay(before + [End] + after) == Replay(after)
  {
    var ops := before + [End] + after;
    if after == [] {
      assert ops[|ops| - 1] == End;
    } else {
      assert ops[..|ops| - 1] == before + [End] + after[..|after| - 1];
      EndForgets(before, after[..|after| - 1]);
    }
  }

  /** End to end: after a successful set, a peer that reads the advertised bytes finds
      exactly this pair under the key, and what it finds under other keys is unchanged. */
  lemma PeerReadsWhatWasSet(view: seq<Service>, service: cstring, key: cstring, value: cstring)
    requires Good(view) && CanSet(view, Some(service), Some(key), Some(value))
    ensures
      var i := Lookup(view, service);
      var before := Strings(view[i].txt);
      var after := Strings(TxtSet(view, Some(service), Some(key), Some(value))[i].txt);
      && after == Kept(before, key) + [Entry(key, value)]
      && KeyMap(after) == KeyMap(before)[Canon(key) := Entry(key, value)]
      && SplitAll(after)[|after| - 1] == Pair(key, value)
      && forall k | 0 <= k < |after| - 1 :: KeyOf(after[k]) != Canon(key)
  {
    var i := Lookup(view, service);
    var before := Strings(view[i].txt);
    var after := WithKey(before, key, value);
    ReadUndoesPrint(after);
    SettingIsAMapUpdate(before, key, value);
    EntrySplits(key, value);
    forall k | 0 <= k < |after| - 1 ensures KeyOf(after[k]) != Canon(key) {
      assert after[k] == Kept(before, key)[k];
      assert Kept(before, key)[k] in Kept(before, key);
    }
  }

  /** An exact spelling that is registered is also found ignoring case, and at the same place. */
  lemma LookupFindsPosition(view: seq<Service>, name: bytes)
    requires Good(view) && Position(view, name) < |view|
    ensures Lookup(view, name) == Position(view, name)
  {
    var i, p := Lookup(view, name), Position(view, name);
    assert Canon(view[p].name) == Canon(name);
  }

  // -------------------------------------------------------------------------
  // The registry in place
  // -------------------------------------------------------------------------

  /** The record that answers a question, which names are compared with up to their length. */
  function Answered(view: seq<Service>, question: bytes, from: nat): (r: Option<Service>)
    requires from <= |view|
    ensures r.None? <==> forall k | from <= k < |view| :: Fold(view[k].name) != Fold(question)
    ensures r.Some? ==> r.value in view && Fold(r.value.name) == Fold(question)
    decreases |view| - from
  {
    if from == |view| then None
    else if Fold(view[from].name) == Fold(question) then Some(view[from])
    else Answered(view, question, from + 1)
  }

  lemma LookupIsUnique(view: seq<Service>, name: bytes, i: nat)
    requires i <= |view| && (i < |view| ==> Canon(view[i].name) == Canon(name))
    requires forall k | 0 <= k < i :: Canon(view[k].name) != Canon(name)
    ensures Lookup(view, name) == i
  {
  }

  /** A question without a NUL is answered with the very service that the other calls find
      under that name, although they compare differently. */
  lemma {:induction false} AnswerIsLookup(view: seq<Service>, question: cstring, from: nat)
    requires from <= |view|
    requires forall k | 0 <= k < from :: Canon(view[k].name) != Canon(question)
    ensures
      var i := Lookup(view, question);
      Answered(view, question, from) == if i < |view| then Some(view[i]) else None
    decreases |view| - from
  {
    CanonOfCString(question);
    if from < |view| {
      CanonOfCString(view[from].name);
    }
    if from < |view| && Fold(view[from].name) != Fold(question) {
      AnswerIsLookup(view, question, from + 1);
    } else {
      LookupIsUnique(view, question, from);
    }
  }

  /** A question with a NUL is answered by no service, though the other calls cut it there. */
  lemma NulFindsNothing(view: seq<Service>, question: bytes)
    requires NUL in question
    ensures Answered(view, question, 0) == None
  {
    FoldKeepsNul(question);
    forall k | 0 <= k < |view| ensures Fold(view[k].name) != Fold(question) {
      FoldKeepsNul(view[k].name);
    }
  }

  lemma FoldKeepsNul(s: bytes)
    ensures NUL in Fold(s) <==> NUL in s
  {
    assert forall i | 0 <= i < |s| :: Fold(s)[i] == NUL <==> s[i] == NUL;
  }

  /** The position of the last `b`, as `strrchr` finds it, or -1. */
  method FindLast(s: bytes, b: byte) returns (i: int)
    ensures -1 <= i < |s|
    ensures i >= 0 ==> s[i] == b
    ensures b !in s[i + 1..]
  {
    i := |s| - 1;
    while i >= 0 && s[i] != b
      invariant -1 <= i < |s| && b !in s[i + 1..]
    {
      i := i - 1;
    }
  }

  predicate Spelled(n: bytes, service: bytes, transport: bytes) {
    && n == [UNDERSCORE] + service + transport && |n| < 64
    && DOT !in service && (transport == Ascii("._tcp") || transport == Ascii("._udp"))
  }

  lemma TransportsAre(t: bytes)
    ensures IsTransport(t) <==> t == Ascii("._tcp") || t == Ascii("._udp")
  {
    assert Ascii("._tcp") == [46, 95, 116, 99, 112];
    assert Ascii("._udp") == [46, 95, 117, 100, 112];
  }

  lemma GoodIsSpelled(n: bytes)
    requires GoodName(n)
    ensures Spelled(n, n[1..|n| - 5], n[|n| - 5..])
  {
    var front := n[..|n| - 5];
    TransportsAre(n[|n| - 5..]);
    assert n == front + n[|n| - 5..] && front == [UNDERSCORE] + n[1..|n| - 5];
    assert DOT !in front;
  }

  lemma SpelledIsGood(n: bytes, service: bytes, transport: bytes)
    requires Spelled(n, service, transport)
    ensures GoodName(n)
  {
    TransportsAre(transport);
    assert |transport| == 5;
    assert n[|n| - 5..] == transport;
    assert n[..|n| - 5] == [UNDERSCORE] + service;
  }

  /** A name is good exactly if it is "_", a label without dots, and one of two transports, and
      fits its slot. */
  lemma GoodNamesAreSpelledSo(n: bytes)
    ensures GoodName(n) <==> exists service: bytes, transport: bytes :: Spelled(n, service, transport)
  {
    if GoodName(n) {
      GoodIsSpelled(n);
    }
    if service: bytes, transport: bytes :| Spelled(n, service, transport) {
      SpelledIsGood(n, service, transport);
    }
  }

  /** What is left to check of a name once its last dot is known. */
  predicate PassesFrom(name: bytes, t: int) {
    && name != [] && name[0] == UNDERSCORE
    && 0 < t < |name| && IsTransport(name[t..]) && DOT !in name[..t]
  }

  lemma LastDotOfGoodName(name: bytes, t: int)
    requires -1 <= t < |name| < NAME_SIZE && (t >= 0 ==> name[t] == DOT) && DOT !in name[t + 1..]
    ensures GoodName(name) <==> PassesFrom(name, t)
  {
    if GoodName(name) {
      var m := |name| - 5;
      assert forall k | 0 <= k < 5 :: name[m + k] == name[m..][k];
      assert name[m] == DOT && forall k | m < k < |name| :: name[m..][k - m] == name[k] && name[k] != DOT;
      assert forall k | t < k < |name| :: name[t + 1..][k - t - 1] == name[k];
      assert t == m;
    }
  }

  /** The name check of `addService`. */
  method CheckName(name: cstring) returns (ok: bool)
    ensures ok <==> GoodName(name)
  {
    if |name| >= NAME_SIZE {
      return false;
    }
    var transport := FindLast(name, DOT);
    LastDotOfGoodName(name, transport);
    if name == [] || name[0] != UNDERSCORE || transport <= 0 || !IsTransport(name[transport..]) {
      return false;
    }
    ok := HasNoDot(name, transport);
  }

  method HasNoDot(name: bytes, n: nat) returns (ok: bool)
    requires n <= |name|
    ensures ok <==> DOT !in name[..n]
  {
    var p := 0;
    while p < n
      invariant 0 <= p <= n && DOT !in name[..p]
    {
      if name[p] == DOT {
        assert name[..n][p] == DOT;
        return false;
      }
      assert name[..p + 1] == name[..p] + [name[p]];
      p := p + 1;
    }
    return true;
  }

  lemma KeptStep(ss: seq<bytes>, n: nat, key: bytes)
    requires n < |ss|
    ensures ss[n] != [] && KeyOf(ss[n]) != Canon(key) ==> Kept(ss[..n + 1], key) == Kept(ss[..n], key) + [ss[n]]
    ensures ss[n] == [] || KeyOf(ss[n]) == Canon(key) ==> Kept(ss[..n + 1], key) == Kept(ss[..n], key)
  {
    assert ss[..n + 1][..n] == ss[..n];
  }

  /** The octets at `pos` hold the next string whole. */
  lemma NextString(raw: bytes, pos: nat, rest: seq<bytes>)
    requires Fits(rest) && pos < |raw| && raw[pos..] == Encode(rest)
    ensures rest != [] && raw[pos] == |rest[0]| && pos + 1 + raw[pos] <= |raw|
    ensures raw[pos + 1..pos + 1 + raw[pos]] == rest[0]
    ensures raw[pos + 1 + raw[pos]..] == Encode(rest[1..])
  {
    var tail := raw[pos..];
    assert tail == [|rest[0]|] + rest[0] + Encode(rest[1..]);
    assert raw[pos] == tail[0];
    assert raw[pos + 1..pos + 1 + raw[pos]] == tail[1..1 + raw[pos]];
    assert raw[pos + 1 + raw[pos]..] == tail[1 + raw[pos]..];
  }

  lemma EncodeAppend(ss: seq<bytes>, s: bytes)
    requires Fits(ss) && |s| <= 255
    ensures Fits(ss + [s]) && Encode(ss + [s]) == Encode(ss) + ([|s|] + s)
  {
    EncodeOne(s);
    EncodeConcat(ss, [s]);
  }

  /** With `pos` octets read, `n` strings are settled and `txt` holds those that stay. */
  ghost predicate Rebuilding(stored: bytes, pos: nat, all: seq<bytes>, n: nat, key: bytes, txt: bytes) {
    && n <= |all| && pos <= |stored| && Fits(all)
    && stored[pos..] == Encode(all[n..])
    && Fits(Kept(all[..n], key)) && txt == Encode(Kept(all[..n], key))
  }

  function Carried(txt: bytes, s: bytes, key: bytes): bytes
    requires |s| <= 255
  {
    if s != [] && KeyOf(s) != Canon(key) then txt + ([|s|] + s) else txt
  }

  lemma NextFits(stored: bytes, pos: nat, all: seq<bytes>, n: nat, key: bytes, txt: bytes)
    requires Rebuilding(stored, pos, all, n, key, txt) && pos < |stored|
    ensures n < |all| && pos + 1 + stored[pos] <= |stored|
  {
    NextString(stored, pos, all[n..]);
  }

  lemma RebuildStep(stored: bytes, pos: nat, all: seq<bytes>, n: nat, key: bytes, txt: bytes, next: nat, s: bytes)
    requires Rebuilding(stored, pos, all, n, key, txt) && n < |all|
    requires pos < |stored| && pos + 1 + stored[pos] == next <= |stored| && s == stored[pos + 1..next]
    ensures Rebuilding(stored, next, all, n + 1, key, Carried(txt, s, key))
  {
    NextString(stored, pos, all[n..]);
    KeptStep(all, n, key);
    assert all[n..][1..] == all[n + 1..] && all[n..][0] == all[n];
    EncodeAppend(Kept(all[..n], key), all[n]);
  }

  /** The rebuild loop of `addServiceTxt`, octet by octet over the stored buffer. */
  method Rebuild(stored: bytes, key: cstring, entry: bytes) returns (txt: bytes)
    requires WellFormed(stored) && |entry| <= 255
    ensures Fits(Kept(Strings(stored), key) + [entry])
    ensures txt == Encode(Kept(Strings(stored), key) + [entry])
  {
    txt := [];
    var pos := 0;
    ghost var all, n := Strings(stored), 0;
    while pos < |stored|
      invariant Rebuilding(stored, pos, all, n, key, txt)
    {
      NextFits(stored, pos, all, n, key, txt);
      var next := pos + 1 + stored[pos];
      var s := stored[pos + 1..next];
      RebuildStep(stored, pos, all, n, key, txt, next, s);
      if |s| != 0 && KeyOf(s) != Canon(key) {
        txt := txt + ([|s|] + s);
      }
      pos, n := next, n + 1;
    }
    assert all[n..] == [] && all[..n] == all;
    EncodeAppend(Kept(all, key), entry);
    txt := txt + ([|entry|] + entry);
  }

  class Registry {
    const services: array<Service>
    var numServices: nat

    ghost predicate Valid()
      reads this, services
    {
      && services.Length == MAX_SERVICES
      && numServices <= MAX_SERVICES
      && Good(services[..numServices])
    }

    ghost function View(): seq<Service>
      reads this, services
      requires Valid()
    {
      services[..numServices]
    }

    constructor ()
      ensures Valid() && View() == [] && fresh(services)
    {
      services := new Service[MAX_SERVICES](_ => Service([], [], 0));
      numServices := 0;
    }

    method End()
      requires Valid()
      modifies this
      ensures Valid() && View() == []
    {
      numServices := 0;
    }

    /** The search loops share this shape: first match ignoring case. */
    method IndexOf(name: bytes) returns (i: nat)
      requires Valid()
      ensures i == Lookup(View(), name)
    {
      i := 0;
      while i < numServices
        invariant i <= numServices && i <= Lookup(View(), name)
      {
        assert View()[i] == services[i];
        if Canon(services[i].name) == Canon(name) {
          return i;
        }
        i := i + 1;
      }
    }

    method AddService(name: Option<cstring>, p: port, txt: Option<cstring>) returns (ok: bool)
      requires Valid()
      modifies this, services
      ensures Valid()
      ensures ok == CanAdd(old(View()), name, txt)
      ensures ok <==>
                && name.Some? && GoodName(name.value) && |old(View())| < 8
                && (txt.Some? ==> |txt.value| <= 255)
                && forall k | 0 <= k < |old(View())| :: Canon(old(View())[k].name) != Canon(name.value)
      ensures View() == Added(old(View()), name, p, txt)
      ensures !ok ==> View() == old(View())
      ensures ok ==> |View()| == |old(View())| + 1 && View()[..|old(View())|] == old(View())
      ensures ok ==>
                var s := View()[|old(View())|];
                s.name == name.value && s.port == p && Strings(s.txt) == [if txt.Some? then txt.value else []]
    {
      LookupMissesExactly(View(), if name.Some? then name.value else []);
      if name.None? || |name.value| >= NAME_SIZE || numServices >= MAX_SERVICES
         || (txt.Some? && |txt.value| > 255) {
        return false;
      }
      var good := CheckName(name.value);
      if !good {
        return false;
      }
      var i := IndexOf(name.value);
      if i < numServices {
        return false;
      }
      ApplyKeepsGood(View(), Add(name, p, txt));
      NewServiceIsAsTold(name.value, p, txt);
      Append(NewService(name.value, p, txt));
      return true;
    }

    method Append(s: Service)
      requires services.Length == MAX_SERVICES && numServices < MAX_SERVICES
      modifies this, services
      ensures numServices <= MAX_SERVICES
      ensures services[..numServices] == old(services[..numServices]) + [s]
    {
      services[numServices] := s;
      numServices := numServices + 1;
    }

    method Replace(i: nat, s: Service)
      requires services.Length == MAX_SERVICES && i < numServices <= MAX_SERVICES
      modifies services
      ensures services[..numServices] == old(services[..numServices])[i := s]
    {
      services[i] := s;
    }

    /** Shift the remaining entries down over position `i`. */
    method ShiftDown(i: nat)
      requires services.Length == MAX_SERVICES && i < numServices <= MAX_SERVICES
      modifies this, services
      ensures numServices == old(numServices) - 1
      ensures services[..numServices] == old(services[..numServices])[..i] + old(services[..numServices])[i + 1..]
    {
      ghost var before := services[..numServices];
      MoveDown(i);
      numServices := numServices - 1;
      assert forall k | 0 <= k < numServices :: services[..numServices][k] == (before[..i] + before[i + 1..])[k];
    }

    method MoveDown(i: nat)
      requires services.Length == MAX_SERVICES && i < numServices <= MAX_SERVICES
      modifies services
      ensures forall k | 0 <= k < i :: services[k] == old(services[k])
      ensures forall k | i <= k < numServices - 1 :: services[k] == old(services[k + 1])
    {
      var j := i;
      while j < numServices - 1
        invariant i <= j <= numServices - 1
        invariant forall k | 0 <= k < i || j <= k < numServices :: services[k] == old(services[k])
        invariant forall k | i <= k < j :: services[k] == old(services[k + 1])
      {
        services[j] := services[j + 1];
        j := j + 1;
      }
    }

    /** `removeService` compares spellings exactly. */
    method FindExact(name: bytes) returns (i: nat)
      requires Valid()
      ensures i == Position(View(), name)
    {
      i := 0;
      while i < numServices
        invariant i <= numServices && i <= Position(View(), name)
      {
        assert View()[i] == services[i];
        if services[i].name == name {
          return i;
        }
        i := i + 1;
      }
    }

    method RemoveService(name: Option<cstring>) returns (ok: bool)
      requires Valid()
      modifies this, services
      ensures Valid()
      ensures ok <==> name.Some? && Position(old(View()), name.value) < |old(View())|
      ensures View() == Removed(old(View()), name)
      ensures ok <==> name.Some? && exists i | 0 <= i < |old(View())| :: old(View())[i].name == name.value
      ensures !ok ==> View() == old(View())
      ensures ok ==> exists i | 0 <= i < |old(View())| ::
                       old(View())[i].name == name.value && View() == old(View())[..i] + old(View())[i + 1..]
      ensures ok ==> forall k | 0 <= k < |View()| :: View()[k].name != name.value
    {
      if name.None? {
        return false;
      }
      PositionMissesExactly(View(), name.value);
      if Position(View(), name.value) < |View()| {
        RemovedIsGone(View(), name);
      }
      ApplyKeepsGood(View(), Remove(name));
      var i := FindExact(name.value);
      ok := i < numServices;
      ghost var after := Removed(View(), name);
      if ok {
        ShiftDown(i);
      }
      assert services[..numServices] == after;
    }

    method AddServiceTxt(service: Option<cstring>, key: Option<cstring>, value: Option<cstring>) returns (ok: bool)
      requires Valid()
      modifies services
      ensures Valid()
      ensures ok == CanSet(old(View()), service, key, value)
      ensures View() == TxtSet(old(View()), service, key, value)
      ensures !ok ==> View() == old(View())
      ensures ok ==> |View()| == |old(View())| && forall k | 0 <= k < |View()| ::
                       && View()[k].name == old(View())[k].name && View()[k].port == old(View())[k].port
                       && (Canon(View()[k].name) != Canon(service.value) ==> View()[k] == old(View())[k])
    {
      TxtSetTouchesOne(View(), service, key, value);
      if service.None? || key.None? || key.value == [] || EQUALS in key.value || value.None? {
        return false;
      }
      var entry := key.value + [EQUALS] + value.value;
      if |entry| > 255 {
        return false;
      }
      ghost var before := View();
      ApplyKeepsGood(before, SetTxt(service, key, value));
      var i := IndexOf(service.value);
      if i == numServices {
        return false;
      }
      assert services[i] == before[i];
      var txt := Rebuild(services[i].txt, key.value, entry);
      if |txt| > TXT_SIZE {
        return false;
      }
      Replace(i, services[i].(txt := txt));
      return true;
    }

    /** `handleReq` for a PTR, SRV or TXT question: the one record it answers with. */
    method Answer(question: bytes) returns (r: Option<Service>)
      requires Valid()
      ensures r == Answered(View(), question, 0)
    {
      var i := 0;
      while i < numServices
        invariant i <= numServices && Answered(View(), question, i) == Answered(View(), question, 0)
      {
        if Fold(services[i].name) == Fold(question) {
          return Some(services[i]);
        }
        i := i + 1;
      }
      return None;
    }

    /** `handleReq` for a service-type enumeration. */
    method Listing() returns (names: seq<bytes>)
      requires Valid()
      ensures |names| == |View()| && forall i | 0 <= i < |names| :: names[i] == View()[i].name
    {
      names := [];
      var i := 0;
      while i < numServices
        invariant i == |names| <= numServices
        invariant forall k | 0 <= k < i :: names[k] == services[k].name
      {
        names := names + [services[i].name];
        i := i + 1;
      }
    }
  }
}
