/** The two response classes: a fixed payload read through a pointer, and a growing buffer that
    shrinks as it is sent; and the length each declares beside what it holds.
 */
module Responses {
  import opened Bytes
  import opened ResponsePump
  import opened Wrappers

  const LENGTH_WORD := 0x1_0000_0000_0000_0000

  // -------------------------------------------------------------------------
  // The two kinds of response
  // -------------------------------------------------------------------------

  class SendQueue {
    var data: bytes

    constructor ()
      ensures data == []
    {
      data := [];
    }

    method Send(bytes_: bytes)
      modifies this
      ensures data == old(data) + bytes_
    {
      data := data + bytes_;
    }
  }

  /** A length as the header prints it, in 64 unsigned bits. */
  function Printed(contentLength: int): nat {
    contentLength % LENGTH_WORD
  }

  /** Any length there is prints as it is; what was never set prints as the largest. */
  lemma PrintedLengths(n: int)
    ensures 0 <= n < 0x1_0000_0000_0000_0000 ==> Printed(n) == n
    ensures Printed(-1) == 18446744073709551615
  {
  }

  class ResponseBasic {
    var memory: bytes
    var ptr: nat
    var len: nat
    var contentLength: int

    ghost predicate Valid()
      reads this
    {
      ptr + len <= |memory|
    }

    ghost function Left(): bytes
      reads this
      requires Valid()
    {
      memory[ptr..ptr + len]
    }

    /** The length it declares is that of what it holds. */
    ghost predicate Truthful()
      reads this
      requires Valid()
    {
      Printed(contentLength) == |Left()|
    }

    /** Without content it is not truthful: it declares the largest length there is. */
    constructor ()
      ensures Valid() && Left() == [] && contentLength == -1 && !Truthful()
    {
      memory, ptr, len, contentLength := [], 0, 0, -1;
    }

    method SetContent(content: bytes)
      requires |content| < LENGTH_WORD
      modifies this
      ensures Valid() && Left() == content && contentLength == |content| && Truthful()
    {
      memory, ptr, len := content, 0, |content|;
      contentLength := len;
    }

    /** The application may declare any length beside the content. */
    method SetContentLength(n: int)
      requires Valid()
      modifies `contentLength
      ensures Valid() && Left() == old(Left()) && (Truthful() <==> Printed(n) == |Left()|)
    {
      contentLength := n;
    }

    method SendBody(nc: SendQueue, space: nat) returns (sent: nat)
      requires Valid() && space > 0
      modifies `ptr, `len, nc
      ensures Valid()
      ensures sent == Min(|old(Left())|, space)
      ensures nc.data == old(nc.data) + old(Left())[..sent] && Left() == old(Left())[sent..]
    {
      var send := if len < space then len else space;
      ghost var left := Left();
      assert left[..send] == memory[ptr..ptr + send] && left[send..] == memory[ptr + send..ptr + len];
      nc.Send(memory[ptr..ptr + send]);
      ptr := ptr + send;
      len := len - send;
      return send;
    }
  }

  class ResponseStream {
    var content: bytes
    var contentLength: int

    ghost predicate Truthful()
      reads this
    {
      Printed(contentLength) == |content|
    }

    constructor ()
      ensures content == [] && contentLength == -1 && !Truthful()
    {
      content, contentLength := [], -1;
    }

    /** The declared length follows every write, whatever was declared before. */
    method Write(data: bytes) returns (written: nat)
      requires |content| + |data| < LENGTH_WORD
      modifies this
      ensures content == old(content) + data && contentLength == |content| && written == |data| && Truthful()
    {
      content := content + data;
      contentLength := |content|;
      return |data|;
    }

    method SetContentLength(n: int)
      modifies `contentLength
      ensures Truthful() <==> Printed(n) == |content|
    {
      contentLength := n;
    }

    method SendBody(nc: SendQueue, space: nat) returns (sent: nat)
      requires space > 0
      modifies `content, nc
      ensures sent == Min(|old(content)|, space)
      ensures nc.data == old(nc.data) + old(content)[..sent] && content == old(content)[sent..]
    {
      var send := if |content| < space then |content| else space;
      nc.Send(content[..send]);
      content := content[send..];
      return send;
    }
  }

  /** One poll: the request pumps only while the response is unfinished and there is space. */
  method PollBasic(r: ResponseBasic, nc: SendQueue, space: nat, done: bool, ghost p: Pump, ghost start: bytes)
    returns (finished: bool)
    requires r.Valid() && p.left == r.Left() && p.finished == done && nc.data == start + Concat(p.chunks)
    modifies r`ptr, r`len, nc
    ensures r.Valid() && finished == Offer(p, space).finished
    ensures r.Left() == Offer(p, space).left && nc.data == start + Concat(Offer(p, space).chunks)
  {
    finished := done;
    if !done && space > 0 {
      OfferMovesAChunk(p, space);
      var sent := r.SendBody(nc, space);
      finished := sent < space;
    }
  }

  /** A basic response driven over any offers: what the queue gets is the content, all of
      it once finished, and then as many bytes as declared exactly if it was truthful. */
  method DriveBasic(r: ResponseBasic, nc: SendQueue, spaces: seq<nat>) returns (finished: bool)
    requires r.Valid()
    modifies r`ptr, r`len, nc
    ensures finished == Offered(old(r.Left()), spaces).finished
    ensures nc.data == old(nc.data) + Concat(Offered(old(r.Left()), spaces).chunks)
    ensures finished ==> nc.data == old(nc.data) + old(r.Left())
    ensures finished ==> (|nc.data| - |old(nc.data)| == Printed(r.contentLength) <==> old(r.Truthful()))
  {
    finished := false;
    var i := 0;
    ghost var body, start := r.Left(), nc.data;
    ghost var p := Pump(body, [], false);
    while i < |spaces|
      invariant 0 <= i <= |spaces| && p == Offered(body, spaces[..i])
      invariant r.Valid() && p.left == r.Left() && p.finished == finished && nc.data == start + Concat(p.chunks)
    {
      assert spaces[..i + 1][..i] == spaces[..i];
      finished := PollBasic(r, nc, spaces[i], finished, p, start);
      p := Offer(p, spaces[i]);
      i := i + 1;
    }
    assert spaces[..i] == spaces;
    PumpConserves(body, spaces);
  }

  /** One poll: the request pumps only while the response is unfinished and there is space. */
  method PollStream(r: ResponseStream, nc: SendQueue, space: nat, done: bool, ghost p: Pump, ghost start: bytes)
    returns (finished: bool)
    requires p.left == r.content && p.finished == done && nc.data == start + Concat(p.chunks)
    modifies r`content, nc
    ensures finished == Offer(p, space).finished
    ensures r.content == Offer(p, space).left && nc.data == start + Concat(Offer(p, space).chunks)
  {
    finished := done;
    if !done && space > 0 {
      OfferMovesAChunk(p, space);
      var sent := r.SendBody(nc, space);
      finished := sent < space;
    }
  }

  /** A stream response driven over any offers: what the queue gets is the content, all of
      it once finished, and then as many bytes as declared exactly if it was truthful. */
  method DriveStream(r: ResponseStream, nc: SendQueue, spaces: seq<nat>) returns (finished: bool)
    modifies r`content, nc
    ensures finished == Offered(old(r.content), spaces).finished
    ensures nc.data == old(nc.data) + Concat(Offered(old(r.content), spaces).chunks)
    ensures finished ==> nc.data == old(nc.data) + old(r.content)
    ensures finished ==> (|nc.data| - |old(nc.data)| == Printed(r.contentLength) <==> old(r.Truthful()))
  {
    finished := false;
    var i := 0;
    ghost var body, start := r.content, nc.data;
    ghost var p := Pump(body, [], false);
    while i < |spaces|
      invariant 0 <= i <= |spaces| && p == Offered(body, spaces[..i])
      invariant p.left == r.content && p.finished == finished && nc.data == start + Concat(p.chunks)
    {
      assert spaces[..i + 1][..i] == spaces[..i];
      finished := PollStream(r, nc, spaces[i], finished, p, start);
      p := Offer(p, spaces[i]);
      i := i + 1;
    }
    assert spaces[..i] == spaces;
    PumpConserves(body, spaces);
  }
}
