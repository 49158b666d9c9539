/** Choosing the endpoint that handles a request. */
module HttpEndpoints {
  import opened Bytes

  datatype Method = Get | Post | Delete | Put | Patch | Head | Options

  /** A mask of methods. */
  type methods = set<Method>

  const ANY: methods := {Get, Post, Delete, Put, Patch, Head, Options}

  /** What an endpoint matches is the manager's business; whether its factory yields a request
      is the endpoint's. */
  datatype Endpoint = Endpoint(allowed: methods, matches: bytes -> bool, builds: bool)

  datatype Handle = NoMatch | UrlMatch | WillHandle | RequestError

  datatype Choice = Handled(index: nat) | NotAllowed | Failed(index: nat) | NotFound

  /** The known names, folded. */
  function Names(): map<bytes, Method> {
    map[[103, 101, 116] := Get,
        [112, 111, 115, 116] := Post,
        [100, 101, 108, 101, 116, 101] := Delete,
        [112, 117, 116] := Put,
        [112, 97, 116, 99, 104] := Patch,
        [104, 101, 97, 100] := Head,
        [111, 112, 116, 105, 111, 110, 115] := Options]
  }

  /** `MongooseHttpServer::method`: a name nobody knows stands for every method. */
  function MethodOf(name: bytes): methods {
    if Fold(name) in Names() then {Names()[Fold(name)]} else ANY
  }

  function NameOf(m: Method): string {
    match m
    case Get => "GET"
    case Post => "POST"
    case Delete => "DELETE"
    case Put => "PUT"
    case Patch => "PATCH"
    case Head => "HEAD"
    case Options => "OPTIONS"
  }

  /** Two methods are wider than one. */
  lemma AnyIsMore(m: Method)
    ensures ANY != {m} && m in ANY
  {
    assert Get in ANY && Post in ANY && Get != Post;
    match m
    case Get => case Post => case Delete => case Put => case Patch => case Head => case Options =>
  }

  lemma NameIsKnown(m: Method)
    ensures Fold(Ascii(NameOf(m))) in Names() && Names()[Fold(Ascii(NameOf(m)))] == m
  {
    var n := Fold(Ascii(NameOf(m)));
    match m
    case Get => assert n == [103, 101, 116];
    case Post => assert n == [112, 111, 115, 116];
    case Delete => assert n == [100, 101, 108, 101, 116, 101];
    case Put => assert n == [112, 117, 116];
    case Patch => assert n == [112, 97, 116, 99, 104];
    case Head => assert n == [104, 101, 97, 100];
    case Options => assert n == [111, 112, 116, 105, 111, 110, 115];
  }

  lemma KnownIsName(name: bytes)
    requires name in Names()
    ensures name == Fold(Ascii(NameOf(Names()[name])))
  {
    var m := Names()[name];
    NameIsKnown(m);
    assert name == [103, 101, 116] ==> m == Get;
  }

  /** A request has the method whose name it spells, in any case, and all of them if it spells
      none. */
  lemma MethodsByName(name: bytes, m: Method)
    ensures MethodOf(name) == {m} <==> Fold(name) == Fold(Ascii(NameOf(m)))
    ensures MethodOf(name) == ANY <==> forall n: Method :: Fold(name) != Fold(Ascii(NameOf(n)))
  {
    forall n: Method ensures Fold(Ascii(NameOf(n))) in Names() && Names()[Fold(Ascii(NameOf(n)))] == n {
      NameIsKnown(n);
    }
    AnyIsMore(m);
    if Fold(name) in Names() {
      KnownIsName(Fold(name));
      AnyIsMore(Names()[Fold(name)]);
      if MethodOf(name) == {m} {
        assert m in {Names()[Fold(name)]};
      }
    }
  }

  /** `willHandleRequest` */
  function Ask(e: Endpoint, uri: bytes, m: methods): Handle {
    if !e.matches(uri) then NoMatch
    else if e.allowed * m == {} then UrlMatch
    else if e.builds then WillHandle else RequestError
  }

  predicate Settles(h: Handle) {
    h == WillHandle || h == RequestError
  }

  /** The endpoint has the path, and allows the method or one of them. */
  predicate Allows(e: Endpoint, uri: bytes, m: methods) {
    e.matches(uri) && exists x :: x in e.allowed && x in m
  }

  lemma AskedAllows(e: Endpoint, uri: bytes, m: methods)
    ensures Settles(Ask(e, uri, m)) <==> Allows(e, uri, m)
    ensures Allows(e, uri, m) ==> (Ask(e, uri, m) == WillHandle <==> e.builds)
  {
    assert e.allowed * m != {} ==> exists x :: x in e.allowed * m;
    forall x | x in e.allowed && x in m ensures x in e.allowed * m {
    }
  }

  /** The endpoint loop of `handleHeaders`. */
  method Choose(endpoints: seq<Endpoint>, uri: bytes, m: methods) returns (c: Choice)
    ensures c.Handled? || c.Failed? ==>
              && c.index < |endpoints| && Allows(endpoints[c.index], uri, m)
              && (c.Handled? <==> endpoints[c.index].builds)
              && forall k | 0 <= k < c.index :: !Allows(endpoints[k], uri, m)
    ensures c.NotAllowed? || c.NotFound? <==> forall k | 0 <= k < |endpoints| :: !Allows(endpoints[k], uri, m)
    ensures c.NotFound? <==> forall k | 0 <= k < |endpoints| :: !endpoints[k].matches(uri)
  {
    var handled := NoMatch;
    var i := 0;
    while i < |endpoints|
      invariant 0 <= i <= |endpoints|
      invariant forall k | 0 <= k < i :: !Allows(endpoints[k], uri, m)
      invariant handled == NoMatch || handled == UrlMatch
      invariant handled == NoMatch <==> forall k | 0 <= k < i :: !endpoints[k].matches(uri)
    {
      AskedAllows(endpoints[i], uri, m);
      match Ask(endpoints[i], uri, m) {
        case WillHandle => return Handled(i);
        case UrlMatch => handled := UrlMatch;
        case RequestError => return Failed(i);
        case NoMatch =>
      }
      i := i + 1;
    }
    if handled == UrlMatch {
      return NotAllowed;
    }
    return NotFound;
  }

  /** "Method not allowed" means just that: some endpoint has the path, and none that has it
      allows the method. */
  lemma RefusedMeansNotAllowed(endpoints: seq<Endpoint>, uri: bytes, m: methods)
    ensures (forall k | 0 <= k < |endpoints| :: !Settles(Ask(endpoints[k], uri, m))) <==>
            forall k | 0 <= k < |endpoints| && endpoints[k].matches(uri) :: endpoints[k].allowed * m == {}
  {
    if forall k | 0 <= k < |endpoints| && endpoints[k].matches(uri) :: endpoints[k].allowed * m == {} {
      forall k | 0 <= k < |endpoints| ensures !Settles(Ask(endpoints[k], uri, m)) {
      }
    } else {
      var k :| 0 <= k < |endpoints| && endpoints[k].matches(uri) && endpoints[k].allowed * m != {};
      assert Settles(Ask(endpoints[k], uri, m));
    }
  }

  /** A request under an unknown method name is never refused for its method: it reaches any
      endpoint on the path that allows at least one. */
  lemma UnknownMethodIsNeverRefused(endpoints: seq<Endpoint>, uri: bytes, name: bytes, k: nat)
    requires Fold(name) !in Names() && k < |endpoints|
    requires endpoints[k].matches(uri) && endpoints[k].allowed != {}
    ensures Settles(Ask(endpoints[k], uri, MethodOf(name)))
  {
    var m :| m in endpoints[k].allowed;
    assert m in ANY by {
      match m
      case Get => case Post => case Delete => case Put => case Patch => case Head => case Options =>
    }
    assert m in endpoints[k].allowed * ANY;
  }
}
