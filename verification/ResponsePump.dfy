/** Pumping a response body through whatever space the send buffer has. */
module ResponsePump {
  import opened Bytes
  import opened Wrappers

  // -------------------------------------------------------------------------
  // Pumping, as the request does it
  // -------------------------------------------------------------------------

  /** The body still to send and the chunks sent; `finished` once a chunk fell short of the
      space it was offered. */
  datatype Pump = Pump(left: bytes, chunks: seq<bytes>, finished: bool)

  function Offer(p: Pump, space: nat): Pump {
    if p.finished || space == 0 then p
    else
      var n := Min(|p.left|, space);
      Pump(p.left[n..], p.chunks + [p.left[..n]], n < space)
  }

  function Offered(body: bytes, spaces: seq<nat>): Pump {
    if spaces == [] then Pump(body, [], false)
    else Offer(Offered(body, spaces[..|spaces| - 1]), spaces[|spaces| - 1])
  }

  function Concat(chunks: seq<bytes>): bytes {
    if chunks == [] then [] else Concat(chunks[..|chunks| - 1]) + chunks[|chunks| - 1]
  }

  function Useful(spaces: seq<nat>): nat {
    if spaces == [] then 0
    else Useful(spaces[..|spaces| - 1]) + if spaces[|spaces| - 1] > 0 then 1 else 0
  }

  /** One offer moves one chunk and keeps what was sent before it. */
  lemma OfferMovesAChunk(p: Pump, space: nat)
    requires !p.finished && space > 0
    ensures
      var q, n := Offer(p, space), Min(|p.left|, space);
      && p.left == p.left[..n] + q.left
      && Concat(q.chunks) == Concat(p.chunks) + p.left[..n]
      && Concat(q.chunks) + q.left == Concat(p.chunks) + p.left
      && (q.finished ==> q.left == [])
      && (!q.finished ==> |q.left| < |p.left|)
  {
    var q, n := Offer(p, space), Min(|p.left|, space);
    assert q.chunks[..|q.chunks| - 1] == p.chunks;
    assert p.left == p.left[..n] + p.left[n..];
  }

  /** Conservation and termination together: for every sequence of free sizes the chunks are
      the body in order with nothing lost or repeated; it finishes only after the last byte,
      and has finished by the (length + 1)-th offer of any space at all. */
  lemma {:induction false} PumpConserves(body: bytes, spaces: seq<nat>)
    ensures
      var p := Offered(body, spaces);
      && Concat(p.chunks) + p.left == body
      && (p.finished ==> p.left == [] && Concat(p.chunks) == body)
      && (!p.finished ==> |p.left| + Useful(spaces) <= |body|)
      && (Useful(spaces) >= |body| + 1 ==> p.finished)
  {
    if spaces == [] {
      assert [] + body == body;
    } else {
      var init, space := spaces[..|spaces| - 1], spaces[|spaces| - 1];
      PumpConserves(body, init);
      var q := Offered(body, init);
      if !q.finished && space > 0 {
        OfferMovesAChunk(q, space);
        var p := Offer(q, space);
        assert p.left == [] ==> Concat(p.chunks) + p.left == Concat(p.chunks);
      }
    }
  }

  /** Finishing happens once: afterwards offers change nothing. */
  lemma {:induction false} FinishedOnce(body: bytes, spaces: seq<nat>, k: nat)
    requires k <= |spaces| && Offered(body, spaces[..k]).finished
    ensures Offered(body, spaces) == Offered(body, spaces[..k])
  {
    if k < |spaces| {
      assert spaces[..|spaces| - 1][..k] == spaces[..k];
      FinishedOnce(body, spaces[..|spaces| - 1], k);
    } else {
      assert spaces[..k] == spaces;
    }
  }

  /** Finishing takes an offer larger than what is left: a last chunk that fills the offer
      exactly costs one more pump. */
  lemma FinishNeedsSlack(body: bytes, spaces: seq<nat>, space: nat)
    requires !Offered(body, spaces).finished
    ensures Offered(body, spaces + [space]).finished <==> space > |Offered(body, spaces).left|
  {
    assert (spaces + [space])[..|spaces|] == spaces;
  }
}
