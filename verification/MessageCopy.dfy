/** The copy a request keeps of its headers: a block of memory of its own, and string views
    moved from the receive buffer into it.
 */
module MessageCopy {
  import opened Bytes

  const MAX_HEADERS := 30

  /** The null address, at which nothing is ever stored. */
  const NULL := 0

  /** What the parser writes for a length it does not know. */
  const UNBOUNDED := 0xFFFF_FFFF_FFFF_FFFF

  /** A view of memory. */
  datatype Str = Str(buf: int, len: nat)

  datatype Message = Message(message: Str, body: Str, verb: Str, uri: Str, query: Str, proto: Str, head: Str,
                             headers: seq<(Str, Str)>)

  type memory = m: map<int, byte> | NULL !in m witness map[]

  predicate Readable(m: memory, s: Str) {
    forall a | s.buf <= a < s.buf + s.len :: a in m
  }

  function Text(m: memory, s: Str): bytes
    requires Readable(m, s)
  {
    seq(s.len, k requires 0 <= k < s.len => m[s.buf + k])
  }

  predicate Inside(s: Str, block: Str) {
    block.buf <= s.buf && s.buf + s.len <= block.buf + block.len
  }

  /** The strings a request is asked for. */
  function Views(m: Message): (r: seq<Str>)
    ensures |r| == 5 + 2 * |m.headers|
  {
    [m.verb, m.uri, m.query, m.proto, m.head] + Flat(m.headers)
  }

  function Flat(headers: seq<(Str, Str)>): (r: seq<Str>)
    ensures |r| == 2 * |headers|
  {
    if headers == [] then [] else Flat(headers[..|headers| - 1]) + [headers[|headers| - 1].0, headers[|headers| - 1].1]
  }

  /** What the parser delivers: a head that is there, and views into it or null ones that are
      empty. The message is as long as head and body, but for one that looks like a response and
      declares no length: then message and body are given the same unbounded length. */
  predicate Parsed(h: memory, m: Message) {
    && m.message.buf == m.head.buf == m.verb.buf != NULL && m.verb.len > 0 && m.head.len > 0
    && Readable(h, m.head) && |m.headers| == MAX_HEADERS
    && (m.message.len == m.head.len + m.body.len || m.message.len == m.body.len)
    && forall i | 0 <= i < |Views(m)| ::
         var s := Views(m)[i]; if s.buf == NULL then s.len == 0 else Inside(s, m.head)
  }

  /** `mg_mk_str_from_offsets` */
  function Moved(dest: int, src: int, s: Str): Str {
    Str(if s.buf == NULL then NULL else dest + (s.buf - src), s.len)
  }

  function MovedAll(dest: int, src: int, headers: seq<(Str, Str)>): (r: seq<(Str, Str)>)
    ensures |r| == |headers|
  {
    if headers == [] then [] else
      var name, value := headers[|headers| - 1].0, headers[|headers| - 1].1;
      MovedAll(dest, src, headers[..|headers| - 1]) + [(Moved(dest, src, name), Moved(dest, src, value))]
  }

  /** The copy of `m` over a block; its body is still the original's. */
  function CopyOver(block: Str, m: Message): Message {
    var src, dest := m.message.buf, block.buf;
    Message(block, m.body, Moved(dest, src, m.verb), Moved(dest, src, m.uri),
            Moved(dest, src, m.query), Moved(dest, src, m.proto), Moved(dest, src, m.head),
            MovedAll(dest, src, m.headers))
  }

  /** The block for `n` bytes: none for none. */
  function Block(dest: int, n: nat): Str {
    if n == 0 then Str(NULL, 0) else Str(dest, n)
  }

  /** `n` bytes from `src` again at `dest`, and a terminator. */
  ghost predicate Duplicated(before: memory, after: memory, src: int, dest: int, n: nat) {
    && (forall a | a in before :: a in after && (dest <= a <= dest + n || after[a] == before[a]))
    && (forall a | src <= a < src + n :: a in before)
    && (forall a | dest <= a < dest + n :: a in after && after[a] == before[a - dest + src])
    && dest + n in after && after[dest + n] == 0
  }

  lemma {:induction false} FlatMoves(dest: int, src: int, headers: seq<(Str, Str)>, i: nat)
    requires i < 2 * |headers|
    ensures Flat(MovedAll(dest, src, headers))[i] == Moved(dest, src, Flat(headers)[i])
  {
    var moved := MovedAll(dest, src, headers);
    assert moved[..|moved| - 1] == MovedAll(dest, src, headers[..|headers| - 1]);
    if i < 2 * (|headers| - 1) {
      FlatMoves(dest, src, headers[..|headers| - 1], i);
    }
  }

  lemma HeaderMoves(block: Str, m: Message, i: nat)
    requires 5 <= i < |Views(m)|
    ensures |Views(CopyOver(block, m))| == |Views(m)|
    ensures Views(CopyOver(block, m))[i] == Moved(block.buf, m.message.buf, Views(m)[i])
  {
    var c := CopyOver(block, m);
    FlatMoves(block.buf, m.message.buf, m.headers, i - 5);
    assert Views(m)[i] == Flat(m.headers)[i - 5];
    assert Views(c)[i] == Flat(c.headers)[i - 5];
  }

  lemma ViewMoves(block: Str, m: Message, i: nat)
    requires i < |Views(m)|
    ensures |Views(CopyOver(block, m))| == |Views(m)|
    ensures Views(CopyOver(block, m))[i] == Moved(block.buf, m.message.buf, Views(m)[i])
  {
    if i >= 5 {
      HeaderMoves(block, m, i);
    }
  }

  lemma MovedDenotesTheSame(before: memory, after: memory, src: int, dest: int, n: nat, s: Str)
    requires Duplicated(before, after, src, dest, n) && s.buf != NULL && Inside(s, Str(src, n))
    ensures Readable(before, s) && Readable(after, Moved(dest, src, s))
    ensures Text(after, Moved(dest, src, s)) == Text(before, s)
    ensures Inside(Moved(dest, src, s), Str(dest, n))
  {
    var t := Moved(dest, src, s);
    assert forall a | t.buf <= a < t.buf + s.len :: a in after;
    forall k | 0 <= k < s.len ensures Text(after, t)[k] == Text(before, s)[k] {
      assert after[t.buf + k] == before[t.buf + k - dest + src];
    }
  }

  /** Every view of the copy denotes what the original's denoted, and lies in the copy's own
      block unless it is null, as the original's then is. */
  ghost predicate Faithful(before: memory, later: memory, m: Message, c: Message) {
    && |Views(c)| == |Views(m)|
    && forall i | 0 <= i < |Views(m)| :: FaithfulView(before, later, Views(m)[i], Views(c)[i], c.message)
  }

  ghost predicate FaithfulView(before: memory, later: memory, s: Str, t: Str, block: Str) {
    && Readable(before, s) && Readable(later, t) && Text(later, t) == Text(before, s)
    && (t.buf == NULL <==> s.buf == NULL) && (t.buf != NULL ==> Inside(t, block))
  }

  /** The memory after `duplicateMessage`. */
  ghost predicate Copied(before: memory, after: memory, m: Message, dest: int) {
    && dest > NULL
    && (m.body.len < m.message.len ==>
          Duplicated(before, after, m.message.buf, dest, m.message.len - m.body.len))
  }

  /** What later becomes of all memory but a block. */
  predicate KeepsBlock(after: memory, later: memory, block: Str) {
    forall a | block.buf <= a < block.buf + block.len :: a in later && a in after && later[a] == after[a]
  }

  /** The copy is faithful, and stays so whatever becomes of all other memory, exactly if the
      message has more than its body: of one whose length is unbounded the block is null, and
      the views are offsets from nowhere. */
  lemma CopyOutlivesTheBuffer(before: memory, after: memory, later: memory, m: Message, dest: int)
    requires Parsed(before, m) && Copied(before, after, m, dest)
    requires KeepsBlock(after, later, Block(dest, m.message.len - m.body.len))
    ensures Faithful(before, later, m, CopyOver(Block(dest, m.message.len - m.body.len), m))
            <==> m.body.len < m.message.len
  {
    var block := Block(dest, m.message.len - m.body.len);
    if m.body.len < m.message.len {
      LongMessageIsFaithful(before, after, later, m, dest);
    } else {
      ViewMoves(block, m, 0);
      var verb := Views(CopyOver(block, m))[0];
      assert verb == Str(NULL, m.verb.len);
      assert !Readable(later, verb);
    }
  }

  /** The body is no part of the copy: it stays in the receive buffer, and once that is gone
      nothing can be read of it, unless the body is empty. */
  lemma BodyIsNotCopied(after: memory, m: Message, dest: int, n: nat)
    requires m.body.len > 0 && (m.body.buf + m.body.len <= dest || dest + n <= m.body.buf)
    requires forall a | dest <= a < dest + n :: a in after
    ensures
      var c, later := CopyOver(Block(dest, n), m), map a | a in after && dest <= a < dest + n :: after[a];
      && KeepsBlock(after, later, Block(dest, n)) && c.message == Block(dest, n)
      && c.body == m.body && !Readable(later, c.body)
  {
    var later: memory := map a | a in after && dest <= a < dest + n :: after[a];
    var s := m.body;
    assert s.buf !in later;
    assert Readable(later, s) ==> s.buf in later;
  }

  lemma LongMessageIsFaithful(before: memory, after: memory, later: memory, m: Message, dest: int)
    requires Parsed(before, m) && m.body.len < m.message.len && Copied(before, after, m, dest)
    requires KeepsBlock(after, later, Block(dest, m.message.len - m.body.len))
    ensures Faithful(before, later, m, CopyOver(Block(dest, m.message.len - m.body.len), m))
  {
    var n := m.message.len - m.body.len;
    var c := CopyOver(Block(dest, n), m);
    forall i | 0 <= i < |Views(m)|
      ensures |Views(c)| == |Views(m)| && FaithfulView(before, later, Views(m)[i], Views(c)[i], c.message)
    {
      ViewMoves(Block(dest, n), m, i);
      if Views(m)[i].buf != NULL {
        KeptViewIsFaithful(before, after, later, m.message.buf, dest, n, Views(m)[i]);
      }
    }
    ViewMoves(Block(dest, n), m, 0);
  }

  lemma KeptViewIsFaithful(before: memory, after: memory, later: memory, src: int, dest: int, n: nat, s: Str)
    requires Duplicated(before, after, src, dest, n) && s.buf != NULL && Inside(s, Str(src, n)) && dest > NULL
    requires KeepsBlock(after, later, Str(dest, n))
    ensures FaithfulView(before, later, s, Moved(dest, src, s), Str(dest, n))
  {
    var t := Moved(dest, src, s);
    MovedDenotesTheSame(before, after, src, dest, n, s);
    assert forall a | t.buf <= a < t.buf + t.len :: a in later && later[a] == after[a];
    assert Text(later, t) == Text(after, t);
  }

  /** A status line in the place of a request, "HTTP/1.1 999 X" at some address, without
      headers: its copy asks for the path at address 9 and for the method at the null address. */
  lemma StatusLineCopy(before: memory, m: Message, at: int, dest: int)
    requires m.message == Str(at, UNBOUNDED) && m.body == Str(at + 18, UNBOUNDED)
    requires m.head == Str(at, 18) && m.verb == Str(at, 8) && m.uri == Str(at + 9, 3) && m.proto == Str(at + 13, 1)
    requires m.query == Str(NULL, 0) && m.headers == seq(MAX_HEADERS, _ => (Str(NULL, 0), Str(NULL, 0)))
    requires at > NULL && Readable(before, m.head)
    ensures Parsed(before, m)
    ensures var c := CopyOver(Block(dest, m.message.len - m.body.len), m);
            c.message == Str(NULL, 0) && c.verb == Str(NULL, 8) && c.uri == Str(9, 3) && !Readable(before, c.verb)
  {
    forall i | 0 <= i < |Views(m)|
      ensures var s := Views(m)[i]; if s.buf == NULL then s.len == 0 else Inside(s, m.head)
    {
      if i >= 5 {
        NoHeaders(m.headers, i - 5);
      }
    }
    var c := CopyOver(Block(dest, 0), m);
    assert c.verb == Str(NULL, 8);
  }

  lemma {:induction false} NoHeaders(headers: seq<(Str, Str)>, i: nat)
    requires i < 2 * |headers| && forall k | 0 <= k < |headers| :: headers[k] == (Str(NULL, 0), Str(NULL, 0))
    ensures Flat(headers)[i] == Str(NULL, 0)
  {
    if i < 2 * (|headers| - 1) {
      NoHeaders(headers[..|headers| - 1], i);
    }
  }

  class Heap {
    var cells: memory

    constructor (cells: memory)
      ensures this.cells == cells
    {
      this.cells := cells;
    }

    /** `mg_strdup`: nothing for an empty or null string; else the allocator found room at
        `dest`. */
    method Duplicate(s: Str, dest: int) returns (r: Str)
      requires Readable(cells, s)
      requires dest > NULL && forall a | dest <= a <= dest + s.len :: a !in cells
      modifies this
      ensures s.len == 0 || s.buf == NULL ==> r == Str(NULL, 0) && cells == old(cells)
      ensures s.len > 0 && s.buf != NULL ==> r == Str(dest, s.len)
      ensures s.len > 0 && s.buf != NULL ==> Duplicated(old(cells), cells, s.buf, dest, s.len)
      ensures forall a | a in cells :: a in old(cells) || dest <= a <= dest + s.len
    {
      if s.len == 0 || s.buf == NULL {
        return Str(NULL, 0);
      }
      r := Str(dest, s.len);
      var k := 0;
      while k < s.len
        invariant 0 <= k <= s.len
        invariant forall a :: a in cells <==> a in old(cells) || dest <= a < dest + k
        invariant forall a | a in old(cells) :: cells[a] == old(cells)[a]
        invariant forall a | dest <= a < dest + k :: cells[a] == old(cells)[a - dest + s.buf]
      {
        cells := cells[dest + k := cells[s.buf + k]];
        k := k + 1;
      }
      cells := cells[dest + s.len := 0];
    }

    /** `duplicateMessage` */
    method DuplicateMessage(m: Message, dest: int) returns (c: Message)
      requires Parsed(cells, m)
      requires dest > NULL && forall a | dest <= a <= dest + (m.message.len - m.body.len) :: a !in cells
      modifies this
      ensures c == CopyOver(Block(dest, m.message.len - m.body.len), m)
      ensures Copied(old(cells), cells, m, dest)
      ensures m.body.len == m.message.len ==> cells == old(cells)
    {
      var block := Duplicate(Str(m.message.buf, m.message.len - m.body.len), dest);
      var src := m.message.buf;
      var headers: seq<(Str, Str)> := [];
      var i := 0;
      while i < MAX_HEADERS
        invariant 0 <= i <= MAX_HEADERS
        invariant headers == MovedAll(block.buf, src, m.headers[..i])
      {
        assert m.headers[..i + 1][..i] == m.headers[..i];
        headers := headers + [(Moved(block.buf, src, m.headers[i].0), Moved(block.buf, src, m.headers[i].1))];
        i := i + 1;
      }
      assert m.headers[..i] == m.headers;
      c := Message(block, m.body, Moved(block.buf, src, m.verb), Moved(block.buf, src, m.uri),
                   Moved(block.buf, src, m.query), Moved(block.buf, src, m.proto), Moved(block.buf, src, m.head),
                   headers);
    }
  }
}
