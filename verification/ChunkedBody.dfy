/** The incremental chunked-body decoder in the receive loop of `Request::send` (section 4.1 of RFC 7230). */
module ChunkedBody {
  import opened Bytes
  import opened Numbers

  /** The four variables the inner loop works on. */
  datatype Decoder = Decoder(buffer: Bytes, body: Bytes, expected: nat, removeCrlf: bool) {
    function Append(piece: Bytes): Decoder {
      this.(buffer := buffer + piece)
    }
  }

  /** How an iteration ends: loop again, wait for the next `recv`, return the response, or throw. */
  datatype Outcome = Again | Wait | Done | Invalid

  const START := Decoder([], [], 0, false)

  /** One iteration of the inner loop. */
  function Iterate(d: Decoder): (Decoder, Outcome) {
    if d.expected > 0 then
      var d' := TakeData(d);
      (d', if d'.buffer == [] then Wait else Again)
    else if d.removeCrlf && |d.buffer| < 2 then
      (d, Wait)
    else if d.removeCrlf && d.buffer[..2] != CRLF then
      (d, Invalid)
    else
      SizeLine(if d.removeCrlf then d.(buffer := d.buffer[2..], removeCrlf := false) else d)
  }

  /** Move as much of the expected chunk data as the buffer holds to the body. */
  function TakeData(d: Decoder): Decoder {
    var n := if d.expected <= |d.buffer| then d.expected else |d.buffer|;
    Decoder(d.buffer[n..], d.body + d.buffer[..n], d.expected - n, d.removeCrlf || d.expected == n)
  }

  /** The second half of an iteration: read a chunk-size line, if the buffer holds a whole one. */
  function SizeLine(d: Decoder): (Decoder, Outcome) {
    var i := Search(d.buffer, CRLF);
    if i == |d.buffer| then (d, Wait)
    else if !IsNumeral(d.buffer[..i], 16) then (d, Invalid)
    else
      var size := Value(d.buffer[..i], 16) % WORD;
      (d.(buffer := d.buffer[i + 2..], expected := size), if size == 0 then Done else Again)
  }

  /** Every iteration that does not leave the loop strictly shrinks the buffer. */
  lemma AgainShrinks(d: Decoder)
    ensures Iterate(d).1.Again? ==> |Iterate(d).0.buffer| < |d.buffer|
  {
  }

  /** The inner loop, run until it leaves. */
  function Drain(d: Decoder): (r: (Decoder, Outcome))
    ensures !r.1.Again?
    decreases |d.buffer|
  {
    var (d', o) := Iterate(d);
    if o.Again? then Drain(d') else (d', o)
  }

  /** The receive loop over a list of pieces: it stops at the first piece after which the decoder is done or fails. */
  function Receive(d: Decoder, pieces: seq<Bytes>): (Decoder, Outcome)
    decreases |pieces|
  {
    if pieces == [] then (d, Wait)
    else
      var (d', o) := Drain(d.Append(pieces[0]));
      if o.Wait? then Receive(d', pieces[1..]) else (d', o)
  }

  function Concat(pieces: seq<Bytes>): Bytes {
    if pieces == [] then [] else pieces[0] + Concat(pieces[1..])
  }

  // ----- the loop as the source writes it -----

  class ChunkReceiver {
    var responseData: Bytes
    var body: Bytes
    var expectedChunkSize: nat
    var removeCrlfAfterChunk: bool

    function State(): Decoder
      reads this
    {
      Decoder(responseData, body, expectedChunkSize, removeCrlfAfterChunk)
    }

    constructor ()
      ensures State() == START
    {
      responseData, body, expectedChunkSize, removeCrlfAfterChunk := [], [], 0, false;
    }

    /** One `recv` followed by the inner loop. */
    method Feed(piece: Bytes) returns (outcome: Outcome)
      modifies this
      ensures (State(), outcome) == Drain(old(State()).Append(piece))
    {
      responseData := responseData + piece;
      ghost var start := State();
      while true
        invariant Drain(State()) == Drain(start)
        decreases |responseData|
      {
        ghost var before := State();
        if expectedChunkSize > 0 {
          var toWrite := if expectedChunkSize <= |responseData| then expectedChunkSize else |responseData|;
          body := body + responseData[..toWrite];
          responseData := responseData[toWrite..];
          expectedChunkSize := expectedChunkSize - toWrite;
          if expectedChunkSize == 0 {
            removeCrlfAfterChunk := true;
          }
          assert State() == Iterate(before).0;
          if responseData == [] {
            return Wait;
          }
        } else {
          if removeCrlfAfterChunk {
            if |responseData| < 2 {
              return Wait;
            }
            if responseData[..2] != CRLF {
              return Invalid;
            }
            removeCrlfAfterChunk := false;
            responseData := responseData[2..];
          }
          var i := Search(responseData, CRLF);
          if i == |responseData| {
            return Wait;
          }
          var size := ReadUint(responseData[..i], 16);
          if size.None? {
            return Invalid;
          }
          expectedChunkSize := size.value;
          responseData := responseData[i + 2..];
          if expectedChunkSize == 0 {
            return Done;
          }
        }
      }
    }
  }

  // ----- how the octets are cut does not matter -----

  /** One iteration with more octets behind it: it does the same, or it would have waited for them. */
  lemma IterateWithMore(d: Decoder, more: Bytes)
    ensures Iterate(d).1.Again? || Iterate(d).1.Done? || Iterate(d).1.Invalid? ==>
              Iterate(d.Append(more)) == (Iterate(d).0.Append(more), Iterate(d).1)
    ensures Iterate(d).1.Wait? ==> Drain(d.Append(more)) == Drain(Iterate(d).0.Append(more))
  {
    if d.expected > 0 {
      var n := if d.expected <= |d.buffer| then d.expected else |d.buffer|;
      if d.expected <= |d.buffer| {
        assert (d.buffer + more)[n..] == d.buffer[n..] + more;
        assert (d.buffer + more)[..n] == d.buffer[..n];
        if |d.buffer| == n {
          DrainAfterWholeChunk(d, more);
        }
      } else {
        TakeDataTwice(d, more);
      }
    } else {
      assert d.removeCrlf && |d.buffer| >= 2 ==>
               (d.buffer + more)[..2] == d.buffer[..2] && (d.buffer + more)[2..] == d.buffer[2..] + more;
      if !(d.removeCrlf && (|d.buffer| < 2 || d.buffer[..2] != CRLF)) {
        var e := if d.removeCrlf then d.(buffer := d.buffer[2..], removeCrlf := false) else d;
        SizeLineWithMore(e, more);
      }
    }
  }

  lemma SizeLineWithMore(d: Decoder, more: Bytes)
    ensures SizeLine(d).1.Wait? ==> SizeLine(d).0 == d
    ensures !SizeLine(d).1.Wait? ==> SizeLine(d.Append(more)) == (SizeLine(d).0.Append(more), SizeLine(d).1)
  {
    var i := Search(d.buffer, CRLF);
    if i < |d.buffer| {
      SearchIsStable(d.buffer, CRLF, more);
      assert (d.buffer + more)[..i] == d.buffer[..i];
      assert (d.buffer + more)[i + 2..] == d.buffer[i + 2..] + more;
    }
  }

  lemma DrainAfterWholeChunk(d: Decoder, more: Bytes)
    requires d.expected > 0 && |d.buffer| == d.expected
    ensures Drain(d.Append(more)) == Drain(Iterate(d).0.Append(more))
  {
    var n := |d.buffer|;
    assert (d.buffer + more)[n..] == more == [] + more;
    assert (d.buffer + more)[..n] == d.buffer == d.buffer[..n];
    assert d.buffer[n..] == [];
    var e := Iterate(d).0.Append(more);
    assert Iterate(d.Append(more)) == (e, if more == [] then Wait else Again);
    if more == [] {
      assert Iterate(e) == (e, Wait);
    }
  }

  lemma SliceBeyond(body: Bytes, b: Bytes, more: Bytes, n: nat)
    requires n <= |more|
    ensures (b + more)[|b| + n..] == more[n..]
    ensures body + (b + more)[..|b| + n] == (body + b) + more[..n]
  {
    assert (b + more)[..|b| + n] == b + more[..n];
  }

  lemma TakeDataTwice(d: Decoder, more: Bytes)
    requires d.expected > |d.buffer|
    ensures TakeData(d).Append(more).expected > 0
    ensures TakeData(d.Append(more)) == TakeData(TakeData(d).Append(more))
  {
    TakeAllOfIt(d);
    var b := d.buffer;
    assert [] + more == more;
    SliceBeyond(d.body, b, more, if d.expected - |b| <= |more| then d.expected - |b| else |more|);
  }

  lemma TakeAllOfIt(d: Decoder)
    requires d.expected > |d.buffer|
    ensures TakeData(d) == Decoder([], d.body + d.buffer, d.expected - |d.buffer|, d.removeCrlf)
  {
    assert d.buffer[|d.buffer|..] == [] && d.buffer[..|d.buffer|] == d.buffer;
  }

  /**
   * Split independence, from every state: draining, then appending and draining again, is draining everything
   * at once.  A decoder that is done or has failed ignores what follows: it only stays in the buffer.
   */
  lemma {:induction false} DrainSplit(d: Decoder, more: Bytes)
    ensures Drain(d).1.Wait? ==> Drain(d.Append(more)) == Drain(Drain(d).0.Append(more))
    ensures !Drain(d).1.Wait? ==> Drain(d.Append(more)) == (Drain(d).0.Append(more), Drain(d).1)
    decreases |d.buffer|
  {
    IterateWithMore(d, more);
    if Iterate(d).1.Again? {
      DrainSplit(Iterate(d).0, more);
    }
  }

  lemma DrainTwice(d: Decoder)
    requires Drain(d).1.Wait?
    ensures Drain(Drain(d).0) == Drain(d)
  {
    DrainSplit(d, []);
    assert d.Append([]) == d;
    assert Drain(d).0.Append([]) == Drain(d).0;
  }

  /** Same outcome, body and counters; a loop that has left may hold less unread input, a waiting one may not. */
  predicate SameRun(r: (Decoder, Outcome), whole: (Decoder, Outcome)) {
    && r.1 == whole.1
    && r.0.body == whole.0.body && r.0.expected == whole.0.expected && r.0.removeCrlf == whole.0.removeCrlf
    && r.0.buffer <= whole.0.buffer
    && (r.1.Wait? ==> r.0.buffer == whole.0.buffer)
  }

  /**
   * The receive loop sees only the concatenation: for every cut of the octets it ends like one single `recv`
   * of everything.
   */
  lemma {:induction false} ReceiveIgnoresCuts(d: Decoder, pieces: seq<Bytes>)
    requires Drain(d) == (d, Wait)
    ensures SameRun(Receive(d, pieces), Drain(d.Append(Concat(pieces))))
    decreases |pieces|
  {
    hide Drain, Receive;
    if pieces == [] {
      assert d.Append([]) == d;
      ReceiveNothing(d);
    } else {
      var e := d.Append(pieces[0]);
      var rest := Concat(pieces[1..]);
      assert e.Append(rest) == d.Append(Concat(pieces));
      var r := Drain(e);
      ReceiveStep(d, pieces);
      DrainSplit(e, rest);
      if r.1.Wait? {
        DrainTwice(e);
        ReceiveIgnoresCuts(r.0, pieces[1..]);
      } else {
        assert r.0.buffer <= r.0.Append(rest).buffer;
      }
    }
  }

  lemma ReceiveNothing(d: Decoder)
    ensures Receive(d, []) == (d, Wait)
  {
  }

  lemma ReceiveStep(d: Decoder, pieces: seq<Bytes>)
    requires pieces != []
    ensures var r := Drain(d.Append(pieces[0]));
            Receive(d, pieces) == if r.1.Wait? then Receive(r.0, pieces[1..]) else r
  {
  }

  // ----- invariants of the loop -----

  /** The two counters exclude each other. */
  predicate Consistent(d: Decoder) {
    d.expected > 0 ==> !d.removeCrlf
  }

  lemma {:induction false} DrainKeepsConsistent(d: Decoder)
    requires Consistent(d)
    ensures Consistent(Drain(d).0)
    ensures d.body <= Drain(d).0.body
    ensures Drain(d).0.expected < WORD || Drain(d).0.expected <= d.expected
    decreases |d.buffer|
  {
    if Iterate(d).1.Again? {
      DrainKeepsConsistent(Iterate(d).0);
    }
  }

  // ----- exactly which octet strings decode, and to what -----

  /** A chunk as transmitted: any hexadecimal spelling of its size, and its data. */
  datatype Chunk = Chunk(sizeText: Bytes, data: Bytes)

  /** The size line as this reader understands it: the value wraps at the word size. */
  predicate ReadsAs(sizeText: Bytes, size: nat) {
    IsNumeral(sizeText, 16) && Value(sizeText, 16) % WORD == size
  }

  predicate WellFormed(chunks: seq<Chunk>) {
    forall i :: 0 <= i < |chunks| ==> chunks[i].data != [] && ReadsAs(chunks[i].sizeText, |chunks[i].data|)
  }

  /** chunk = chunk-size CRLF chunk-data CRLF */
  function Wire(chunks: seq<Chunk>): Bytes {
    if chunks == [] then []
    else chunks[0].sizeText + CRLF + chunks[0].data + CRLF + Wire(chunks[1..])
  }

  function Payload(chunks: seq<Chunk>): Bytes {
    if chunks == [] then [] else chunks[0].data + Payload(chunks[1..])
  }

  /** The wire form of a whole body: chunks, a zero size line, and whatever follows it. */
  function Message(chunks: seq<Chunk>, zero: Bytes, tail: Bytes): Bytes {
    Wire(chunks) + (zero + CRLF + tail)
  }

  /** The decoder between two chunks, with `rest` still to read. */
  predicate BetweenChunks(d: Decoder, rest: Bytes) {
    d.expected == 0 && d.buffer == (if d.removeCrlf then CRLF else []) + rest
  }

  lemma BetweenChunksUnique(d: Decoder, rest: Bytes, rest': Bytes)
    requires BetweenChunks(d, rest) && BetweenChunks(d, rest')
    ensures rest == rest'
  {
    var n := if d.removeCrlf then 2 else 0;
    assert d.buffer[n..] == rest;
    assert d.buffer[n..] == rest';
  }

  lemma ReadsSizeLine(d: Decoder, sizeText: Bytes, rest: Bytes)
    requires BetweenChunks(d, sizeText + CRLF + rest)
    requires IsNumeral(sizeText, 16)
    ensures var size := Value(sizeText, 16) % WORD;
            Iterate(d) == (Decoder(rest, d.body, size, false), if size == 0 then Done else Again)
  {
    var e := d.(buffer := sizeText + CRLF + rest, removeCrlf := false);
    if d.removeCrlf {
      assert d.buffer[..2] == CRLF && d.buffer[2..] == e.buffer;
    } else {
      assert d.buffer == e.buffer;
    }
    SearchAfterLine(sizeText, rest);
  }

  lemma ReadsChunk(d: Decoder, c: Chunk, rest: Bytes)
    requires c.data != [] && ReadsAs(c.sizeText, |c.data|)
    requires BetweenChunks(d, c.sizeText + CRLF + (c.data + CRLF + rest))
    ensures Drain(d) == Drain(Decoder(CRLF + rest, d.body + c.data, 0, true))
  {
    hide Drain, SizeLine, Value;
    ReadsSizeLine(d, c.sizeText, c.data + CRLF + rest);
    var e := Decoder(c.data + CRLF + rest, d.body, |c.data|, false);
    assert c.data + (CRLF + rest) == c.data + CRLF + rest;
    assert e.buffer[|c.data|..] == CRLF + rest && e.buffer[..|c.data|] == c.data;
    assert Iterate(e) == (Decoder(CRLF + rest, d.body + c.data, 0, true), Again);
    DrainStep(d);
    DrainStep(e);
  }

  /** Every well-formed message decodes to its payload, whatever follows it. */
  lemma {:induction false} DecodesMessage(d: Decoder, chunks: seq<Chunk>, zero: Bytes, tail: Bytes)
    requires WellFormed(chunks) && ReadsAs(zero, 0)
    requires BetweenChunks(d, Message(chunks, zero, tail))
    ensures Drain(d) == (Decoder(tail, d.body + Payload(chunks), 0, false), Done)
    decreases |chunks|
  {
    if chunks == [] {
      assert Message(chunks, zero, tail) == zero + CRLF + tail;
      ReadsSizeLine(d, zero, tail);
      assert d.body + Payload(chunks) == d.body;
    } else {
      var c := chunks[0];
      var rest := Message(chunks[1..], zero, tail);
      assert Message(chunks, zero, tail) == c.sizeText + CRLF + (c.data + CRLF + rest);
      ReadsChunk(d, c, rest);
      DecodesMessage(Decoder(CRLF + rest, d.body + c.data, 0, true), chunks[1..], zero, tail);
      assert d.body + c.data + Payload(chunks[1..]) == d.body + Payload(chunks);
    }
  }

  /** A decoder between chunks that does not wait or fail has read a size line. */
  lemma SizeLineWasRead(d: Decoder) returns (text: Bytes, after: Bytes)
    requires d.expected == 0 && (Iterate(d).1.Again? || Iterate(d).1.Done?)
    ensures IsNumeral(text, 16)
    ensures BetweenChunks(d, text + CRLF + after)
    ensures var size := Value(text, 16) % WORD;
            Iterate(d) == (Decoder(after, d.body, size, false), if size == 0 then Done else Again)
  {
    var e := if d.removeCrlf then d.(buffer := d.buffer[2..], removeCrlf := false) else d;
    assert d.buffer == (if d.removeCrlf then CRLF else []) + e.buffer;
    var i := Search(e.buffer, CRLF);
    SplitAtFirst(e.buffer, CRLF);
    text, after := e.buffer[..i], e.buffer[i + 2..];
  }

  /** A decoder inside a chunk that does not wait has read the chunk's data. */
  lemma DataWasRead(d: Decoder) returns (data: Bytes, after: Bytes)
    requires d.expected > 0 && Iterate(d).1.Again?
    ensures |data| == d.expected && d.buffer == data + after
    ensures Iterate(d).0 == Decoder(after, d.body + data, 0, true)
  {
    data, after := d.buffer[..d.expected], d.buffer[d.expected..];
  }

  lemma PrependChunk(d: Decoder, c: Chunk, after: Bytes, rest: seq<Chunk>, zero: Bytes, tail: Bytes)
    requires BetweenChunks(d, c.sizeText + CRLF + (c.data + after))
    requires after == CRLF + Message(rest, zero, tail)
    ensures BetweenChunks(d, Message([c] + rest, zero, tail))
    ensures d.body + c.data + Payload(rest) == d.body + Payload([c] + rest)
  {
    assert ([c] + rest)[1..] == rest;
    assert Message([c] + rest, zero, tail) == c.sizeText + CRLF + (c.data + after);
  }

  lemma DrainStep(d: Decoder)
    ensures Drain(d) == if Iterate(d).1.Again? then Drain(Iterate(d).0) else Iterate(d)
  {
  }

  /** A decoder between chunks that reads a non-zero size and does not wait has read a whole chunk. */
  lemma ChunkWasRead(d: Decoder, rest: Bytes) returns (c: Chunk, after: Bytes)
    requires BetweenChunks(d, rest) && Iterate(d).1.Again? && !Drain(d).1.Wait?
    ensures c.data != [] && ReadsAs(c.sizeText, |c.data|)
    ensures rest == c.sizeText + CRLF + (c.data + after)
    ensures Drain(d) == Drain(Decoder(after, d.body + c.data, 0, true))
    ensures |after| < |d.buffer|
  {
    DrainStep(d);
    var text, more := SizeLineWasRead(d);
    var e := Iterate(d).0;
    DrainStep(e);
    var data, tail := DataWasRead(e);
    c, after := Chunk(text, data), tail;
    BetweenChunksUnique(d, rest, text + CRLF + more);
  }

  /** Conversely, whatever decodes to the end was a well-formed message, and the body is its payload. */
  lemma {:induction false} DecodedWasMessage(d: Decoder)
      returns (chunks: seq<Chunk>, zero: Bytes)
    requires d.expected == 0 && Drain(d).1.Done?
    ensures WellFormed(chunks) && ReadsAs(zero, 0)
    ensures BetweenChunks(d, Message(chunks, zero, Drain(d).0.buffer))
    ensures Drain(d).0.body == d.body + Payload(chunks)
    decreases |d.buffer|
  {
    hide Iterate, SizeLine, Search;
    DrainStep(d);
    var text, after := SizeLineWasRead(d);
    if Iterate(d).1.Done? {
      chunks, zero := [], text;
      assert Message(chunks, zero, after) == text + CRLF + after;
      assert d.body + Payload(chunks) == d.body;
    } else {
      var c, more := ChunkWasRead(d, text + CRLF + after);
      var rest, last := DecodedWasMessage(Decoder(more, d.body + c.data, 0, true));
      chunks, zero := [c] + rest, last;
      PrependChunk(d, c, more, rest, zero, Drain(d).0.buffer);
    }
  }

  /** `stream` is the wire form of chunks whose data is `body`, possibly with unread octets after it. */
  ghost predicate EncodesBody(stream: Bytes, body: Bytes) {
    exists chunks: seq<Chunk>, zero: Bytes, tail: Bytes ::
      WellFormed(chunks) && ReadsAs(zero, 0) && stream == Message(chunks, zero, tail) && body == Payload(chunks)
  }

  lemma EncodedDecodes(stream: Bytes, body: Bytes)
    requires EncodesBody(stream, body)
    ensures Drain(START.Append(stream)).1.Done? && Drain(START.Append(stream)).0.body == body
  {
    var chunks: seq<Chunk>, zero: Bytes, tail: Bytes :|
      WellFormed(chunks) && ReadsAs(zero, 0) && stream == Message(chunks, zero, tail) && body == Payload(chunks);
    var d := START.Append(stream);
    assert [] + stream == stream;
    assert [] + body == body;
    DecodesMessage(d, chunks, zero, tail);
  }

  /** The whole language of the decoder: it returns `body` on a stream exactly when the stream encodes it. */
  lemma DecodesExactly(stream: Bytes, body: Bytes)
    ensures (Drain(START.Append(stream)).1.Done? && Drain(START.Append(stream)).0.body == body) <==>
            EncodesBody(stream, body)
  {
    var d := START.Append(stream);
    if EncodesBody(stream, body) {
      EncodedDecodes(stream, body);
    } else if Drain(d).1.Done? {
      var chunks, zero := DecodedWasMessage(d);
      assert d.buffer == [] + stream == stream;
      assert [] + Payload(chunks) == Payload(chunks);
      assert [] + Message(chunks, zero, Drain(d).0.buffer) == Message(chunks, zero, Drain(d).0.buffer);
    }
  }

  /** What a decoder between chunks throws on: a size line with a character that is no hex digit, or chunk data
      that two octets other than CRLF follow. */
  datatype Fault = BadSize(line: Bytes, tail: Bytes) | BadEnd(chunk: Chunk, tail: Bytes) {
    predicate Valid() {
      match this
      case BadSize(line, tail) => !IsNumeral(line, 16) && Search(line + CRLF + tail, CRLF) == |line|
      case BadEnd(c, tail) => c.data != [] && ReadsAs(c.sizeText, |c.data|) && |tail| >= 2 && tail[..2] != CRLF
    }

    function Text(): Bytes {
      match this
      case BadSize(line, tail) => line + CRLF + tail
      case BadEnd(c, tail) => c.sizeText + CRLF + (c.data + tail)
    }
  }

  lemma BadSizeThrows(d: Decoder, line: Bytes, tail: Bytes)
    requires BadSize(line, tail).Valid() && BetweenChunks(d, line + CRLF + tail)
    ensures Iterate(d).1.Invalid? && !Iterate(d).0.removeCrlf
  {
    var rest := line + CRLF + tail;
    assert rest[..|line|] == line;
    if d.removeCrlf {
      assert d.buffer[..2] == CRLF && d.buffer[2..] == rest;
    } else {
      assert d.buffer == rest;
    }
  }

  lemma BadEndThrows(d: Decoder, c: Chunk, tail: Bytes)
    requires BadEnd(c, tail).Valid() && BetweenChunks(d, c.sizeText + CRLF + (c.data + tail))
    ensures Drain(d).1.Invalid? && Drain(d).0.removeCrlf
  {
    ReadsSizeLine(d, c.sizeText, c.data + tail);
    DrainStep(d);
    var e := Decoder(c.data + tail, d.body, |c.data|, false);
    assert e.buffer[|c.data|..] == tail && e.buffer[..|c.data|] == c.data;
    var g := Decoder(tail, d.body + c.data, 0, true);
    assert Iterate(e) == (g, Again);
    DrainStep(e);
    assert Iterate(g) == (g, Invalid);
    DrainStep(g);
  }

  /** A stream that goes wrong after some whole chunks. */
  ghost predicate BreaksOff(stream: Bytes) {
    exists chunks: seq<Chunk>, fault: Fault ::
      WellFormed(chunks) && fault.Valid() && stream == Wire(chunks) + fault.Text()
  }

  lemma {:induction false} BrokenThrows(d: Decoder, chunks: seq<Chunk>, fault: Fault)
    requires WellFormed(chunks) && fault.Valid() && BetweenChunks(d, Wire(chunks) + fault.Text())
    ensures Drain(d).1.Invalid? && (Drain(d).0.removeCrlf <==> fault.BadEnd?)
    decreases |chunks|
  {
    hide Iterate, SizeLine, Search;
    if chunks == [] {
      assert Wire(chunks) + fault.Text() == fault.Text();
      match fault
      case BadSize(line, tail) => BadSizeThrows(d, line, tail); DrainStep(d);
      case BadEnd(c, tail) => BadEndThrows(d, c, tail);
    } else {
      var c := chunks[0];
      var rest := Wire(chunks[1..]) + fault.Text();
      assert Wire(chunks) + fault.Text() == c.sizeText + CRLF + (c.data + CRLF + rest);
      ReadsChunk(d, c, rest);
      BrokenThrows(Decoder(CRLF + rest, d.body + c.data, 0, true), chunks[1..], fault);
    }
  }

  lemma ThrewAtOnce(d: Decoder, rest: Bytes) returns (fault: Fault)
    requires BetweenChunks(d, rest) && Iterate(d).1.Invalid?
    ensures fault.Valid() && fault.Text() == rest
  {
    if d.removeCrlf {
      assert d.buffer[..2] == CRLF && d.buffer[2..] == rest;
    } else {
      assert d.buffer == rest;
    }
    assert Iterate(d) == SizeLine(d.(buffer := rest, removeCrlf := false));
    var i := Search(rest, CRLF);
    SplitAtFirst(rest, CRLF);
    fault := BadSize(rest[..i], rest[i + 2..]);
  }

  lemma ThrewAfterData(d: Decoder)
    ensures d.expected == 0 && d.removeCrlf && Drain(d).1.Invalid? ==> |d.buffer| >= 2
  {
    DrainStep(d);
  }

  lemma WireCons(c: Chunk, chunks: seq<Chunk>, more: Bytes)
    ensures Wire([c] + chunks) + more == c.sizeText + CRLF + (c.data + (CRLF + (Wire(chunks) + more)))
  {
    assert ([c] + chunks)[1..] == chunks;
  }

  lemma {:induction false} ThrewWasBroken(d: Decoder, rest: Bytes) returns (chunks: seq<Chunk>, fault: Fault)
    requires BetweenChunks(d, rest) && Drain(d).1.Invalid?
    ensures WellFormed(chunks) && fault.Valid()
    ensures rest == Wire(chunks) + fault.Text()
    decreases |d.buffer|
  {
    hide Iterate, SizeLine, Search;
    DrainStep(d);
    if Iterate(d).1.Invalid? {
      chunks := [];
      fault := ThrewAtOnce(d, rest);
    } else {
      var c, more := ChunkWasRead(d, rest);
      var g := Decoder(more, d.body + c.data, 0, true);
      ThrewAfterData(g);
      if more[..2] != CRLF {
        chunks, fault := [], BadEnd(c, more);
      } else {
        assert more == CRLF + more[2..];
        var cs, f := ThrewWasBroken(g, more[2..]);
        chunks, fault := [c] + cs, f;
        WireCons(c, cs, fault.Text());
      }
    }
  }

  /** The decoder throws on exactly the streams that are malformed after some whole chunks. */
  lemma ThrowsExactly(stream: Bytes)
    ensures Drain(START.Append(stream)).1.Invalid? <==> BreaksOff(stream)
  {
    var d := START.Append(stream);
    assert d.buffer == [] + stream == stream;
    if Drain(d).1.Invalid? {
      var chunks, fault := ThrewWasBroken(d, stream);
    }
    if BreaksOff(stream) {
      var chunks: seq<Chunk>, fault: Fault :|
        WellFormed(chunks) && fault.Valid() && stream == Wire(chunks) + fault.Text();
      BrokenThrows(d, chunks, fault);
    }
  }

  /** The same however the stream is cut; the decoder still waits for a chunk to end exactly when that is the fault. */
  lemma FaultIsFound(chunks: seq<Chunk>, fault: Fault, pieces: seq<Bytes>)
    requires WellFormed(chunks) && fault.Valid() && Concat(pieces) == Wire(chunks) + fault.Text()
    ensures Receive(START, pieces).1.Invalid? && (Receive(START, pieces).0.removeCrlf <==> fault.BadEnd?)
  {
    hide Drain, Receive, Wire, WellFormed;
    var stream := Concat(pieces);
    var d := START.Append(stream);
    assert d.buffer == [] + stream == stream;
    BrokenThrows(d, chunks, fault);
    StartWaits();
    ReceiveIgnoresCuts(START, pieces);
  }

  /** The same chunks as a standard sender prints them. */
  function Sized(datas: seq<Bytes>): (chunks: seq<Chunk>)
    ensures |chunks| == |datas|
    ensures forall i :: 0 <= i < |datas| ==> chunks[i] == Chunk(Print(|datas[i]|, 16), datas[i])
  {
    seq(|datas|, i requires 0 <= i < |datas| => Chunk(Print(|datas[i]|, 16), datas[i]))
  }

  lemma {:induction false} PayloadOfSized(datas: seq<Bytes>)
    ensures Payload(Sized(datas)) == Concat(datas)
  {
    if datas != [] {
      PayloadOfSized(datas[1..]);
      assert Sized(datas)[1..] == Sized(datas[1..]);
    }
  }

  /**
   * Round trip: non-empty chunks below the word bound, printed as section 4.1 of RFC 7230 says, cut anywhere,
   * come back as exactly their concatenation.
   */
  lemma ChunkedRoundTrip(datas: seq<Bytes>, tail: Bytes, pieces: seq<Bytes>)
    requires forall i :: 0 <= i < |datas| ==> 0 < |datas[i]| < WORD
    requires Concat(pieces) == Message(Sized(datas), Print(0, 16), tail)
    ensures Receive(START, pieces).1.Done?
    ensures Receive(START, pieces).0.body == Concat(datas)
  {
    hide Drain, Receive, Wire, Payload, Sized, ReadsAs, WellFormed, Print;
    SizedIsWellFormed(datas);
    var stream := Concat(pieces);
    var d := START.Append(stream);
    assert d.buffer == [] + stream == stream;
    DecodesMessage(d, Sized(datas), Print(0, 16), tail);
    PayloadOfSized(datas);
    assert [] + Concat(datas) == Concat(datas);
    StartWaits();
    ReceiveIgnoresCuts(START, pieces);
  }

  lemma SizedIsWellFormed(datas: seq<Bytes>)
    requires forall i :: 0 <= i < |datas| ==> 0 < |datas[i]| < WORD
    ensures WellFormed(Sized(datas)) && ReadsAs(Print(0, 16), 0)
  {
    hide Print, Value;
    forall i | 0 <= i < |datas| ensures ReadsAs(Print(|datas[i]|, 16), |datas[i]|) {
      PrintReadsBack(|datas[i]|, 16);
    }
    PrintReadsBack(0, 16);
  }

  lemma StartWaits()
    ensures Drain(START) == (START, Wait)
  {
  }

  /**
   * Before the last octet arrives the body is a prefix of the payload, nothing is thrown, and the counters
   * exclude each other; and the loop cannot end early with less than the payload.
   */
  lemma PrefixOfMessage(chunks: seq<Chunk>, zero: Bytes, tail: Bytes, sofar: Bytes)
    requires WellFormed(chunks) && ReadsAs(zero, 0)
    requires sofar <= Message(chunks, zero, tail)
    ensures var (d, o) := Drain(START.Append(sofar));
            && !o.Invalid?
            && d.body <= Payload(chunks)
            && (o.Done? ==> d.body == Payload(chunks))
            && Consistent(d)
  {
    var stream := Message(chunks, zero, tail);
    var more := stream[|sofar|..];
    var d := START.Append(sofar);
    assert d.Append(more).buffer == [] + stream == stream;
    DecodesMessage(d.Append(more), chunks, zero, tail);
    assert [] + Payload(chunks) == Payload(chunks);
    DrainSplit(d, more);
    DrainKeepsConsistent(d);
    DrainKeepsConsistent(Drain(d).0.Append(more));
  }
}
