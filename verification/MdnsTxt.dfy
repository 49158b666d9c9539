/** The DNS-SD TXT wire format (section 6.1 of RFC 6763): a run of strings, each
    preceded by one length octet.
 */
module MdnsTxt {
  import opened Bytes

  datatype Pair = Pair(key: bytes, value: bytes)

  /** Every string fits behind a single length octet. */
  predicate Fits(ss: seq<bytes>) {
    forall i | 0 <= i < |ss| :: |ss[i]| <= 255
  }

  function Encode(ss: seq<bytes>): bytes
    requires Fits(ss)
  {
    if ss == [] then [] else [|ss[0]|] + ss[0] + Encode(ss[1..])
  }

  /** The strings that `raw` holds, as far as it is well formed. */
  function Strings(raw: bytes): (ss: seq<bytes>)
    ensures Fits(ss)
  {
    if raw == [] || 1 + raw[0] > |raw| then []
    else [raw[1..1 + raw[0]]] + Strings(raw[1 + raw[0]..])
  }

  /** A buffer with nothing after its last whole string. */
  predicate WellFormed(raw: bytes) {
    Encode(Strings(raw)) == raw
  }

  /** One string as the application sees it: cut at the first "=". */
  function Split(s: bytes): Pair {
    var eq := Find(s, EQUALS);
    Pair(s[..eq], if eq < |s| then s[eq + 1..] else [])
  }

  function SplitAll(ss: seq<bytes>): (ps: seq<Pair>)
    ensures |ps| == |ss|
  {
    seq(|ss|, i requires 0 <= i < |ss| => Split(ss[i]))
  }

  lemma EncodeConcat(a: seq<bytes>, b: seq<bytes>)
    requires Fits(a) && Fits(b)
    ensures Fits(a + b) && Encode(a + b) == Encode(a) + Encode(b)
  {
    if a == [] {
      assert a + b == b;
    } else {
      assert (a + b)[1..] == a[1..] + b;
      EncodeConcat(a[1..], b);
    }
  }

  lemma EncodeOne(s: bytes)
    requires |s| <= 255
    ensures Fits([s]) && Encode([s]) == [|s|] + s
  {
    assert Encode([s]) == [|s|] + s + Encode([s][1..]);
  }

  /** Reading never strays past the buffer: what is read re-encodes to a prefix of it. */
  lemma {:induction false} StringsAreAPrefix(raw: bytes)
    ensures Encode(Strings(raw)) <= raw
  {
    if raw != [] && 1 + raw[0] <= |raw| {
      var n: nat := raw[0];
      var s, rest := raw[1..1 + n], raw[1 + n..];
      StringsAreAPrefix(rest);
      assert raw == [n] + s + rest;
      assert Strings(raw)[1..] == Strings(rest);
      PrefixAfter([n] + s, Encode(Strings(rest)), rest);
    }
  }

  lemma PrefixAfter(a: bytes, b: bytes, c: bytes)
    requires b <= c
    ensures a + b <= a + c
  {
    assert c == b + c[|b|..];
    assert a + c == (a + b) + c[|b|..];
  }

  /** No well-formed prefix is longer: any list that encodes to a prefix of the
      buffer is itself a prefix of what is read. */
  lemma {:induction false} StringsAreTheLongest(raw: bytes, ss: seq<bytes>)
    requires Fits(ss) && Encode(ss) <= raw
    ensures ss <= Strings(raw)
  {
    if ss != [] {
      var n := |ss[0]|;
      var e := Encode(ss);
      var rest := Encode(ss[1..]);
      assert e == [n] + ss[0] + rest;
      assert e[0] == n && raw[0] == n;
      assert raw[1..1 + n] == e[1..1 + n] == ss[0];
      assert raw[1 + n..][..|rest|] == e[1 + n..] == rest;
      StringsAreTheLongest(raw[1 + n..], ss[1..]);
      assert Strings(raw) == [ss[0]] + Strings(raw[1 + n..]);
      assert ss == [ss[0]] + ss[1..];
    }
  }

  /** Printing and then reading gives back the list, with anything short of a whole
      string behind it ignored. */
  lemma ReadUndoesPrint(ss: seq<bytes>)
    requires Fits(ss)
    ensures Strings(Encode(ss)) == ss && WellFormed(Encode(ss))
  {
    var raw := Encode(ss);
    StringsAreTheLongest(raw, ss);
    StringsAreAPrefix(raw);
    var more := Strings(raw)[|ss|..];
    assert Strings(raw) == ss + more;
    EncodeConcat(ss, more);
    assert Encode(more) == [];
  }

  /** Two lists never print to the same bytes. */
  lemma PrintIsInjective(a: seq<bytes>, b: seq<bytes>)
    requires Fits(a) && Fits(b) && Encode(a) == Encode(b)
    ensures a == b
  {
    ReadUndoesPrint(a);
    ReadUndoesPrint(b);
  }

  /** Splitting loses exactly one bit (section 6.4 of RFC 6763 tells the two apart):
      a bare key reads the same as that key with an empty value. */
  lemma SplitCollisions(s: bytes, t: bytes)
    ensures Split(s) == Split(t) <==> s == t || IsBareForm(s, t) || IsBareForm(t, s)
  {
    if Split(s) == Split(t) {
      SplitParts(s);
      SplitParts(t);
    }
    if IsBareForm(s, t) {
      BareSplits(s);
    }
    if IsBareForm(t, s) {
      BareSplits(t);
    }
  }

  lemma SplitParts(s: bytes)
    ensures var p := Split(s);
            EQUALS !in p.key && (s == p.key + [EQUALS] + p.value || (s == p.key && p.value == []))
  {
    var eq := Find(s, EQUALS);
    assert eq < |s| ==> s == s[..eq] + [EQUALS] + s[eq + 1..];
  }

  lemma BareSplits(bare: bytes)
    requires EQUALS !in bare
    ensures Split(bare) == Split(bare + [EQUALS]) == Pair(bare, [])
  {
    var full := bare + [EQUALS];
    assert bare[..|bare|] == bare && full[..|bare|] == bare;
    FindIsUnique(bare, EQUALS, |bare|);
    FindIsUnique(full, EQUALS, |bare|);
  }

  predicate IsBareForm(bare: bytes, full: bytes) {
    EQUALS !in bare && full == bare + [EQUALS]
  }

  lemma SplitAllAppend(ss: seq<bytes>, s: bytes)
    ensures SplitAll(ss + [s]) == SplitAll(ss) + [Split(s)]
  {
  }

  /** One more whole string extends what has been read. */
  lemma StringsStep(raw: bytes, ss: seq<bytes>, pos: nat, n: nat)
    requires Fits(ss) && pos + 1 + n <= |raw| && n <= 255
    requires raw[..pos] == Encode(ss) && raw[pos] == n
    ensures raw[..pos + 1 + n] == Encode(ss + [raw[pos + 1..pos + 1 + n]])
  {
    var s := raw[pos + 1..pos + 1 + n];
    calc {
      raw[..pos + 1 + n];
      raw[..pos] + ([n] + s);
      { EncodeOne(s); }
      Encode(ss) + Encode([s]);
      { EncodeConcat(ss, [s]); }
      Encode(ss + [s]);
    }
  }

  /** A cut string ends the reading. */
  lemma StringsStop(raw: bytes, ss: seq<bytes>, pos: nat)
    requires Fits(ss) && pos <= |raw| && raw[..pos] == Encode(ss)
    requires pos < |raw| ==> pos + 1 + raw[pos] > |raw|
    ensures Strings(raw) == ss
    decreases |ss|
  {
    if ss != [] {
      FirstString(raw, ss, pos);
      StringsStop(raw[1 + |ss[0]|..], ss[1..], pos - 1 - |ss[0]|);
    }
  }

  lemma FirstString(raw: bytes, ss: seq<bytes>, pos: nat)
    requires Fits(ss) && ss != [] && pos <= |raw| && raw[..pos] == Encode(ss)
    ensures var n := |ss[0]|;
            && 1 + n <= pos && raw[0] == n && raw[1..1 + n] == ss[0]
            && raw[1 + n..][..pos - 1 - n] == Encode(ss[1..])
  {
    var n, rest := |ss[0]|, Encode(ss[1..]);
    assert raw == ([n] + ss[0] + rest) + raw[pos..];
  }

  method ParsePair(entry: bytes) returns (p: Pair)
    ensures p == Split(entry)
  {
    var eq := Find(entry, EQUALS);
    p := Pair(entry[..eq], if eq < |entry| then entry[eq + 1..] else []);
  }

  /** `mdnsParseTxt`: the reader of replies, over a buffer from the network. */
  method ParseTxt(raw: bytes) returns (txt: seq<Pair>)
    ensures txt == SplitAll(Strings(raw))
  {
    txt := [];
    var pos := 0;
    ghost var ss := [];
    while pos < |raw|
      invariant 0 <= pos <= |raw| && Fits(ss)
      invariant raw[..pos] == Encode(ss) && txt == SplitAll(ss)
    {
      var len: nat := raw[pos];
      if pos + 1 + len > |raw| {
        break;
      }
      var entry := raw[pos + 1..pos + 1 + len];
      StringsStep(raw, ss, pos, len);
      var pair := ParsePair(entry);
      txt := txt + [pair];
      SplitAllAppend(ss, entry);
      ss := ss + [entry];
      pos := pos + 1 + len;
    }
    StringsStop(raw, ss, pos);
  }
}
