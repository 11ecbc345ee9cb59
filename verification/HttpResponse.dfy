/** HttpListenerResponse::write_response (framework/src/kfw_web.cpp) through StreamWriter
    (framework/src/kfw_io.cpp) to an unbuffered stream, and the listener's own parsing
    functions applied to what it wrote. */
module HttpResponse {
  import opened Text
  import opened BufferedWrite
  import opened Chunks
  import ReadLine

  // ----- what is written -----

  function StatusText(code: int): string {
    match code
    case 200 => "OK"
    case 201 => "Created"
    case 202 => "Accepted"
    case 400 => "Bad Request"
    case 401 => "Unauthorized"
    case 403 => "Forbidden"
    case 404 => "Not Found"
    case 405 => "Method Not Allowed"
    case 500 => "Internal Server Error"
    case _ => "Unknown"
  }

  const CRLF := "\r\n"

  const VERSION := "HTTP/1.1 "
  const CONTENT_LENGTH := "Content-Length: "
  const CONTENT_TYPE := "Content-Type: "
  const CONNECTION := "Connection: close"

  function StatusPieces(code: int): seq<string> {
    [VERSION, SignedDecimal(code), " ", StatusText(code), CRLF]
  }

  function HeaderPieces(total: nat, contentType: string): seq<string> {
    [CONTENT_LENGTH, Decimal(total), CRLF, CONTENT_TYPE, contentType, CRLF, CONNECTION, CRLF, CRLF]
  }

  // ----- the effect of writes that may fail -----

  /** One StreamWriter output: nothing for an empty text, else one base write. */
  function Put(plan: Plan, s: State, text: string): (State, bool) {
    if text == "" then (s, true)
    else
      var r := BaseWrite(plan, s.calls, text);
      (State(s.out + text[..r.val], s.pending, s.calls + 1), r.ret.Ok?)
  }

  /** Several outputs: a failure is remembered, the later ones are still attempted. */
  function PutAll(plan: Plan, s: State, texts: seq<string>): (State, bool) {
    if texts == [] then (s, true)
    else
      var (s1, ok1) := PutAll(plan, s, texts[..|texts| - 1]);
      var (s2, ok2) := Put(plan, s1, texts[|texts| - 1]);
      (s2, ok1 && ok2)
  }

  /** The body loop: it stops at the first write that fails. */
  function PutBody(plan: Plan, s: State, pieces: seq<string>): (State, bool)
    decreases |pieces|
  {
    if pieces == [] then (s, true)
    else
      var (s1, ok) := Put(plan, s, pieces[0]);
      if !ok then (s1, false) else PutBody(plan, s1, pieces[1..])
  }

  /** The result code, and whether every write went through. */
  datatype Outcome = Outcome(state: State, ok: bool, complete: bool)

  /** A failure in the status line or the headers is reported; one in the body is not. */
  function Respond(plan: Plan, s: State, status: seq<string>, headers: seq<string>, body: seq<string>): Outcome {
    var (s1, ok1) := PutAll(plan, s, status);
    if !ok1 then Outcome(s1, false, false)
    else
      var (s2, ok2) := PutAll(plan, s1, headers);
      if !ok2 then Outcome(s2, false, false)
      else
        var (s3, ok3) := PutBody(plan, s2, body);
        Outcome(s3, true, ok3)
  }

  // ----- the code -----

  class StreamWriter {
    const s: BufferedStream
    var failed: bool            // m_error != kOk
    ghost var start: State
    ghost var done: seq<string>

    constructor (s: BufferedStream)
      requires s.Valid() && !s.buffered
      ensures this.s == s && Valid() && start == s.Now() && done == [] && !failed
    {
      this.s, failed, start, done := s, false, s.Now(), [];
    }

    ghost predicate Valid()
      reads this, s, s.base, s.buffer
    {
      s.Valid() && !s.buffered && (s.Now(), !failed) == PutAll(s.base.plan, start, done)
    }

    method Put(text: string)
      requires Valid()
      modifies this, s, s.base, s.buffer
      ensures Valid() && start == old(start) && done == old(done) + [text]
    {
      var r := s.Write(text);
      if !r.ret.Ok? { failed := true; }
      done := done + [text];
      assert done[..|done| - 1] == old(done);
    }

    method PutInt32(value: int)
      requires Valid() && -0x8000_0000 < value < 0x8000_0000
      modifies this, s, s.base, s.buffer
      ensures Valid() && start == old(start) && done == old(done) + [SignedDecimal(value)]
    {
      var buf := new char[12];
      SignedFits(value);
      var ok, len := PrintInt32(value, buf, 11);
      Put(buf[..len]);
    }

    method PutUInt32(value: nat)
      requires Valid() && value < Text.UINT32
      modifies this, s, s.base, s.buffer
      ensures Valid() && start == old(start) && done == old(done) + [Decimal(value)]
    {
      var buf := new char[10];
      UnsignedFits(value);
      var ok, len := PrintUInt32(value, buf);
      Put(buf[..len]);
    }
  }

  lemma UnsignedFits(value: nat)
    requires value < Text.UINT32
    ensures |Decimal(value)| <= 10
  {
    TenDigits();
    DecimalLength(value, 10, Pow10(10));
  }

  lemma SignedFits(value: int)
    requires -0x8000_0000 < value < 0x8000_0000
    ensures ToString(value, 11) == Printed(true, SignedDecimal(value)) && |SignedDecimal(value)| <= 11
  {
    UnsignedFits(if value < 0 then -value else value);
  }

  /** ChunkBufferEnumerator. */
  class Enumerator {
    const cb: ChunkBuffer
    var current: Link

    constructor (cb: ChunkBuffer)
      ensures this.cb == cb && current == cb.first
    {
      this.cb, current := cb, cb.first;
    }

    predicate IsEnd()
      reads this
    {
      current == Null
    }

    /** get_data up to get_data_size. */
    function Data(): string
      requires current.To? && current.index < |cb.arena|
      reads this, cb
    {
      var bytes := cb.arena[current.index].bytes;
      if current == cb.current && cb.pos <= |bytes| then bytes[..cb.pos] else bytes
    }

    method Next()
      requires current.To? && current.index < |cb.arena|
      modifies this
      ensures current == cb.arena[old(current).index].next
    {
      current := cb.arena[current.index].next;
    }
  }

  ghost function BodyPieces(cb: ChunkBuffer): seq<string>
    requires cb.Valid()
    reads cb
  {
    Enumerate(cb.arena, cb.pos, 0).list
  }

  /** Pieces still to come at a cursor. */
  ghost function Remaining(arena: seq<Chunk>, pos: nat, cursor: Link): seq<string>
    requires cursor.To? ==> cursor.index < |arena|
  {
    if cursor.To? then Enumerate(arena, pos, cursor.index).list else []
  }

  /** The walk from the cursor goes on into a link that was never stored. */
  ghost predicate WildFrom(arena: seq<Chunk>, pos: nat, cursor: Link) {
    cursor == Wild || (cursor.To? && cursor.index < |arena| && Enumerate(arena, pos, cursor.index).wild)
  }

  lemma WalkStep(zeroed: bool, arena: seq<Chunk>, size: nat, pos: nat, i: nat)
    requires WellLinked(zeroed, arena, size) && i < |arena|
    ensures var next := arena[i].next;
            && (next.To? ==> i < next.index < |arena|)
            && (WildFrom(arena, pos, To(i)) <==> WildFrom(arena, pos, next))
            && Remaining(arena, pos, To(i)) == [Piece(arena, pos, i)] + Remaining(arena, pos, next)
  {
  }

  lemma BodyStep(plan: Plan, s: State, zeroed: bool, arena: seq<Chunk>, size: nat, pos: nat, i: nat)
    requires WellLinked(zeroed, arena, size) && i < |arena|
    ensures var next := arena[i].next;
            && (next.To? ==> i < next.index < |arena|)
            && (WildFrom(arena, pos, To(i)) <==> WildFrom(arena, pos, next))
            && PutBody(plan, s, Remaining(arena, pos, To(i)))
               == var (t, ok) := Put(plan, s, Piece(arena, pos, i));
                  if ok then PutBody(plan, t, Remaining(arena, pos, next)) else (t, false)
  {
    hide WellLinked;
    hide Remaining;
    hide WildFrom;
    WalkStep(zeroed, arena, size, pos, i);
    var rest := Remaining(arena, pos, arena[i].next);
    assert ([Piece(arena, pos, i)] + rest)[1..] == rest;
  }

  lemma BodyEnds(plan: Plan, s: State, arena: seq<Chunk>, pos: nat, cursor: Link)
    requires !cursor.To?
    ensures PutBody(plan, s, Remaining(arena, pos, cursor)) == (s, true)
  {
  }

  /** The chunks go out in order up to the first write that fails; wild says that the loop then goes on into
      memory that no chunk was ever linked to. */
  method WriteBody(stream: BufferedStream, cb: ChunkBuffer) returns (complete: bool, wild: bool)
    requires stream.Valid() && !stream.buffered && cb.Valid()
    modifies stream, stream.base, stream.buffer
    ensures stream.Valid()
    ensures (stream.Now(), complete) == PutBody(stream.base.plan, old(stream.Now()), BodyPieces(cb))
    ensures wild <==> complete && Enumerate(cb.arena, cb.pos, 0).wild
  {
    hide WellLinked;
    hide Enumerate;
    hide PutBody;
    cb.LinkedIs();
    var e := new Enumerator(cb);
    ghost var goal := PutBody(stream.base.plan, stream.Now(), BodyPieces(cb));
    while !e.IsEnd()
      invariant stream.Valid() && (e.current.To? ==> e.current.index < |cb.arena|)
      invariant WildFrom(cb.arena, cb.pos, e.current) <==> WildFrom(cb.arena, cb.pos, To(0))
      invariant PutBody(stream.base.plan, stream.Now(), Remaining(cb.arena, cb.pos, e.current)) == goal
      decreases if e.current.To? then |cb.arena| - e.current.index else 0
    {
      if e.current.Wild? {
        BodyEnds(stream.base.plan, stream.Now(), cb.arena, cb.pos, e.current);
        return true, true;
      }
      BodyStep(stream.base.plan, stream.Now(), cb.zeroed, cb.arena, cb.chunkSize, cb.pos, e.current.index);
      var r := stream.Write(e.Data());
      if !r.ret.Ok? { return false, false; }
      e.Next();
    }
    BodyEnds(stream.base.plan, stream.Now(), cb.arena, cb.pos, e.current);
    return true, false;
  }

  /** ok is what write_response returns; complete says whether every write went through, in which case the
      chunks are released, unless the walk runs wild: then nothing is said about what follows. */
  method WriteResponse(stream: BufferedStream, cb: ChunkBuffer, status: int, contentType: string)
    returns (ok: bool, ghost complete: bool, wild: bool)
    requires stream.Valid() && !stream.buffered && cb.Valid()
    requires -0x8000_0000 < status < 0x8000_0000
    modifies stream, stream.base, stream.buffer, cb
    ensures stream.Valid()
    ensures Outcome(stream.Now(), ok, complete)
            == Respond(stream.base.plan, old(stream.Now()), StatusPieces(status),
                       HeaderPieces(old(cb.total), contentType), old(BodyPieces(cb)))
    ensures wild <==> complete && old(Runs(cb))
    ensures complete && !wild ==> cb.first == Null
    ensures !complete ==> cb.first == old(cb.first) && cb.arena == old(cb.arena)
  {
    hide *;
    ghost var pieces := BodyPieces(cb);
    RunsIs(cb);
    ok := WriteStatusLine(stream, status);
    if !ok {
      RespondIs(stream.base.plan, old(stream.Now()), StatusPieces(status), HeaderPieces(cb.total, contentType), pieces);
      return false, false, false;
    }
    ok := WriteHeaders(stream, cb, contentType);
    RespondIs(stream.base.plan, old(stream.Now()), StatusPieces(status), HeaderPieces(cb.total, contentType), pieces);
    if !ok { return false, false, false; }
    var all;
    all, wild := WriteBody(stream, cb);
    if !all { return true, false, false; }
    if wild { return true, true, true; }
    cb.first, cb.current := Null, Null;
    return true, true, false;
  }

  /** The list of chunks ends in a link that was never stored. */
  ghost predicate Runs(cb: ChunkBuffer)
    requires cb.Valid()
    reads cb
  {
    Enumerate(cb.arena, cb.pos, 0).wild
  }

  lemma RunsIs(cb: ChunkBuffer)
    requires cb.Valid()
    ensures cb.arena != [] && (Runs(cb) <==> Enumerate(cb.arena, cb.pos, 0).wild)
  {
  }

  lemma RespondIs(plan: Plan, s: State, status: seq<string>, headers: seq<string>, body: seq<string>)
    ensures Respond(plan, s, status, headers, body)
            == var p := PutAll(plan, s, status); var q := PutAll(plan, p.0, headers); var r := PutBody(plan, q.0, body);
               if !p.1 then Outcome(p.0, false, false)
               else if !q.1 then Outcome(q.0, false, false)
               else Outcome(r.0, true, r.1)
  {
    hide PutAll;
    hide PutBody;
  }

  method WriteStatusLine(stream: BufferedStream, status: int) returns (ok: bool)
    requires stream.Valid() && !stream.buffered && -0x8000_0000 < status < 0x8000_0000
    modifies stream, stream.base, stream.buffer
    ensures stream.Valid() && (stream.Now(), ok) == PutAll(stream.base.plan, old(stream.Now()), StatusPieces(status))
  {
    hide *;
    var w := new StreamWriter(stream);
    w.Put(VERSION);
    w.PutInt32(status);
    w.Put(" ");
    w.Put(StatusText(status));
    w.Put(CRLF);
    PiecesAre(status, 0, "");
    WriterIs(w);
    return !w.failed;
  }

  lemma PiecesAre(status: int, total: nat, contentType: string)
    ensures StatusPieces(status) == [] + [VERSION] + [SignedDecimal(status)] + [" "] + [StatusText(status)] + [CRLF]
    ensures HeaderPieces(total, contentType)
            == [] + [CONTENT_LENGTH] + [Decimal(total)] + [CRLF] + [CONTENT_TYPE] + [contentType] + [CRLF]
               + [CONNECTION] + [CRLF] + [CRLF]
  {
  }

  lemma WriterIs(w: StreamWriter)
    requires w.Valid()
    ensures w.s.Valid() && (w.s.Now(), !w.failed) == PutAll(w.s.base.plan, w.start, w.done)
  {
  }

  lemma TotalFits(cb: ChunkBuffer)
    requires cb.Valid()
    ensures cb.total < Text.UINT32
  {
  }

  method WriteHeaders(stream: BufferedStream, cb: ChunkBuffer, contentType: string) returns (ok: bool)
    requires stream.Valid() && !stream.buffered && cb.Valid()
    modifies stream, stream.base, stream.buffer
    ensures stream.Valid()
    ensures (stream.Now(), ok) == PutAll(stream.base.plan, old(stream.Now()), HeaderPieces(cb.total, contentType))
  {
    hide *;
    var w := new StreamWriter(stream);
    TotalFits(cb);
    w.Put(CONTENT_LENGTH);
    w.PutUInt32(cb.total);
    w.Put(CRLF);
    w.Put(CONTENT_TYPE);
    w.Put(contentType);
    w.Put(CRLF);
    w.Put(CONNECTION);
    w.Put(CRLF);
    w.Put(CRLF);
    PiecesAre(0, cb.total, contentType);
    WriterIs(w);
    return !w.failed;
  }
}
