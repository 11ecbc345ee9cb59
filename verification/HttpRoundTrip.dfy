/** What the listener's parser (read_line, parse_http_header, UInt32::parse) makes of the bytes that
    write_response produces (framework/src/kfw_web.cpp, framework/src/kfw_common.cpp). */
module HttpRoundTrip {
  import opened Text
  import opened ReadLine
  import opened BufferedWrite
  import Chunks
  import H = HttpResponse

  // ----- which bytes reach the base -----

  /** The base stream takes a whole write or fails. */
  ghost predicate AllOrFail(plan: Plan) {
    forall k :: plan(k).Wrote? ==> plan(k).n >= Text.UINT32
  }

  /** Lengths are 32-bit. */
  predicate Short(texts: seq<string>) { forall i | 0 <= i < |texts| :: |texts[i]| < Text.UINT32 }

  lemma PutWhole(plan: Plan, s: State, text: string)
    requires AllOrFail(plan) && |text| < Text.UINT32
    ensures var (t, ok) := H.Put(plan, s, text);
            t.pending == s.pending && (if ok then t.out == s.out + text else t.out == s.out && text != "")
  {
    if text != "" && plan(s.calls).Wrote? { assert text[..|text|] == text; }
  }

  lemma {:induction false} JoinSnoc(texts: seq<string>, last: string)
    ensures Chunks.Join(texts + [last]) == Chunks.Join(texts) + last
    decreases |texts|
  {
    if texts == [] {
      assert (texts + [last])[1..] == [];
    } else {
      JoinSnoc(texts[1..], last);
      assert (texts + [last])[1..] == texts[1..] + [last];
    }
  }

  lemma {:induction false} PutAllDelivers(plan: Plan, s: State, texts: seq<string>)
    requires AllOrFail(plan) && Short(texts)
    ensures var (t, ok) := H.PutAll(plan, s, texts);
            && t.pending == s.pending
            && (if ok then t.out == s.out + Chunks.Join(texts) else |t.out| < |s.out| + |Chunks.Join(texts)|)
    decreases |texts|
  {
    if texts != [] {
      var front, last := texts[..|texts| - 1], texts[|texts| - 1];
      PutAllDelivers(plan, s, front);
      PutWhole(plan, H.PutAll(plan, s, front).0, last);
      JoinSnoc(front, last);
      assert texts == front + [last];
    }
  }

  lemma {:induction false} PutBodyDelivers(plan: Plan, s: State, pieces: seq<string>)
    requires AllOrFail(plan) && Short(pieces)
    ensures var (t, ok) := H.PutBody(plan, s, pieces);
            && t.pending == s.pending && s.out <= t.out
            && (if ok then t.out == s.out + Chunks.Join(pieces) else |t.out| < |s.out| + |Chunks.Join(pieces)|)
    decreases |pieces|
  {
    if pieces != [] {
      PutWhole(plan, s, pieces[0]);
      var (s1, ok) := H.Put(plan, s, pieces[0]);
      if ok { PutBodyDelivers(plan, s1, pieces[1..]); }
    }
  }

  /** What a run of outputs leaves at the base, from the front: a failing one is skipped, the next one is
      still attempted. */
  function Landed(plan: Plan, call: nat, texts: seq<string>): string
    decreases |texts|
  {
    if texts == [] then ""
    else if texts[0] == "" then Landed(plan, call, texts[1..])
    else (if plan(call).Wrote? then texts[0] else "") + Landed(plan, call + 1, texts[1..])
  }

  function Attempts(texts: seq<string>): nat {
    if texts == [] then 0 else (if texts[0] == "" then 0 else 1) + Attempts(texts[1..])
  }

  lemma {:induction false} LandedSnoc(plan: Plan, call: nat, texts: seq<string>, last: string)
    ensures Attempts(texts + [last]) == Attempts(texts) + if last == "" then 0 else 1
    ensures Landed(plan, call, texts + [last])
         == Landed(plan, call, texts) + if last != "" && plan(call + Attempts(texts)).Wrote? then last else ""
    decreases |texts|
  {
    if texts == [] {
      assert (texts + [last])[1..] == [];
    } else {
      LandedSnoc(plan, if texts[0] == "" then call else call + 1, texts[1..], last);
      assert (texts + [last])[1..] == texts[1..] + [last];
    }
  }

  /** Status line and headers: every output is attempted, whatever failed before. */
  lemma {:induction false} PutAllAttempts(plan: Plan, s: State, texts: seq<string>)
    requires AllOrFail(plan) && Short(texts)
    ensures var t := H.PutAll(plan, s, texts).0;
            t.calls == s.calls + Attempts(texts) && t.out == s.out + Landed(plan, s.calls, texts)
    decreases |texts|
  {
    if texts != [] {
      var front, last := texts[..|texts| - 1], texts[|texts| - 1];
      PutAllAttempts(plan, s, front);
      assert texts == front + [last];
      LandedSnoc(plan, s.calls, front, last);
      PutWhole(plan, H.PutAll(plan, s, front).0, last);
    }
  }

  /** The body: the first write that fails is the last one made, and just the pieces before it went out. */
  lemma {:induction false} PutBodyStops(plan: Plan, s: State, pieces: seq<string>) returns (j: nat)
    requires AllOrFail(plan) && Short(pieces) && !H.PutBody(plan, s, pieces).1
    ensures j < |pieces|
    ensures var t := H.PutBody(plan, s, pieces).0;
            && t.out == s.out + Chunks.Join(pieces[..j]) && pieces[j] != ""
            && t.calls == s.calls + Attempts(pieces[..j]) + 1 && plan(t.calls - 1).Failed?
    decreases |pieces|
  {
    PutWhole(plan, s, pieces[0]);
    var (s1, ok) := H.Put(plan, s, pieces[0]);
    if !ok {
      j := 0;
    } else {
      j := PutBodyStops(plan, s1, pieces[1..]);
      assert pieces[..j + 1][0] == pieces[0] && pieces[..j + 1][1..] == pieces[1..][..j];
      j := j + 1;
    }
  }

  /** The result code says whether status line and headers went out; the whole response went out
      iff no write failed. So a body cut short by a failing write is reported as success. */
  lemma ResponseReportIff(plan: Plan, s: State, status: seq<string>, headers: seq<string>, body: seq<string>)
    requires AllOrFail(plan) && Short(status) && Short(headers) && Short(body)
    ensures var o, head := H.Respond(plan, s, status, headers, body), s.out + Chunks.Join(status) + Chunks.Join(headers);
            && (o.ok <==> head <= o.state.out)
            && (o.complete <==> o.state.out == head + Chunks.Join(body))
            && (o.complete ==> o.ok)
  {
    hide H.PutAll;
    hide H.PutBody;
    PutAllDelivers(plan, s, status);
    var (s1, ok1) := H.PutAll(plan, s, status);
    PutAllDelivers(plan, s1, headers);
    var (s2, ok2) := H.PutAll(plan, s1, headers);
    PutBodyDelivers(plan, s2, body);
  }

  /** A base that takes n writes and then fails. */
  function FailsFrom(n: nat): Plan {
    (k: nat) => if k < n then Wrote(Text.UINT32) else Failed
  }

  lemma FirstPieceFails(plan: Plan, s: State, piece: string)
    requires piece != "" && plan(s.calls).Failed?
    ensures !H.PutBody(plan, s, [piece]).1 && H.PutBody(plan, s, [piece]).0.out == s.out
  {
    assert piece[..0] == "";
  }

  /** The failing family: where every head write succeeds and the next one fails, a non-empty body is
      dropped and the result is still success. */
  lemma BodyFailureUnreported(status: seq<string>, headers: seq<string>, piece: string)
    requires piece != "" && Short(status) && Short(headers) && "" !in status && "" !in headers
    ensures var o := H.Respond(FailsFrom(|status| + |headers|), State("", "", 0), status, headers, [piece]);
            && AllOrFail(FailsFrom(|status| + |headers|)) && o.ok && !o.complete
            && o.state.out == Chunks.Join(status) + Chunks.Join(headers)
  {
    hide H.PutAll;
    hide H.PutBody;
    hide H.Respond;
    hide Chunks.Join;
    var plan, s := FailsFrom(|status| + |headers|), State("", "", 0);
    H.RespondIs(plan, s, status, headers, [piece]);
    PutAllSucceeds(plan, s, status, |status| + |headers|);
    PutAllDelivers(plan, s, status);
    var s1 := H.PutAll(plan, s, status).0;
    PutAllSucceeds(plan, s1, headers, |status| + |headers|);
    PutAllDelivers(plan, s1, headers);
    FirstPieceFails(plan, H.PutAll(plan, s1, headers).0, piece);
    assert "" + Chunks.Join(status) == Chunks.Join(status);
  }

  lemma {:induction false} PutAllSucceeds(plan: Plan, s: State, texts: seq<string>, n: nat)
    requires AllOrFail(plan) && Short(texts) && "" !in texts
    requires s.calls + |texts| <= n && forall k | 0 <= k < n :: plan(k).Wrote?
    ensures var (t, ok) := H.PutAll(plan, s, texts); ok && t.calls == s.calls + |texts|
    decreases |texts|
  {
    if texts != [] { PutAllSucceeds(plan, s, texts[..|texts| - 1], n); }
  }

  // ----- reading it back -----

  /** Header lines up to the empty line, as get_context reads them; rest is the body. */
  ghost predicate ReadsHeaders(limit: nat, input: string, junk: char, lines: seq<string>, rest: string)
    decreases |lines|
  {
    var l := LineOf(limit, input, junk, "");
    if lines == [] then l == Line(true, "", rest)
    else l.ok && l.text == lines[0] && lines[0] != "" && ReadsHeaders(limit, l.rest, junk, lines[1..], rest)
  }

  datatype Header = Header(key: string, val: string) | NoColon

  /** parse_http_header. */
  function HeaderOf(line: string): Header {
    var p := IndexOf(line, ':', 0);
    if p < 0 then NoColon else Header(Trim(line[..p]), Trim(line[p + 1..]))
  }

  function StatusLine(code: int): string { H.VERSION + SignedDecimal(code) + " " + H.StatusText(code) }

  function LengthLine(total: nat): string { H.CONTENT_LENGTH + Decimal(total) }

  function TypeLine(contentType: string): string { H.CONTENT_TYPE + contentType }

  function HeaderLines(total: nat, contentType: string): seq<string> {
    [LengthLine(total), TypeLine(contentType), H.CONNECTION]
  }

  function ResponseText(code: int, total: nat, contentType: string, body: string): string {
    Chunks.Join(H.StatusPieces(code)) + Chunks.Join(H.HeaderPieces(total, contentType)) + body
  }

  /** The same bytes, line by line. */
  function InLines(code: int, total: nat, contentType: string, body: string): string {
    StatusLine(code) + CRLF + AfterStatus(total, contentType, body)
  }

  function AfterStatus(total: nat, contentType: string, body: string): string {
    LengthLine(total) + CRLF + AfterLength(contentType, body)
  }

  function AfterLength(contentType: string, body: string): string {
    TypeLine(contentType) + CRLF + AfterType(body)
  }

  function AfterType(body: string): string { H.CONNECTION + CRLF + ("" + CRLF + body) }

  lemma Join3(a: string, b: string, c: string)
    ensures Chunks.Join([a, b, c]) == a + b + c
  {
    assert [a, b, c][1..] == [b, c] && [b, c][1..] == [c] && [c][1..] == [];
    assert Chunks.Join([c]) == c && Chunks.Join([b, c]) == b + c;
  }

  lemma {:induction false} JoinAppend(a: seq<string>, b: seq<string>)
    ensures Chunks.Join(a + b) == Chunks.Join(a) + Chunks.Join(b)
    decreases |a|
  {
    if a == [] {
      assert a + b == b;
    } else {
      JoinAppend(a[1..], b);
      assert (a + b)[1..] == a[1..] + b;
    }
  }

  lemma JoinStatus(v: string, c: string, sp: string, t: string, nl: string)
    ensures Chunks.Join([v, c, sp, t, nl]) == v + c + sp + t + nl
  {
    hide Chunks.Join;
    JoinSnoc([v, c, sp, t], nl);
    JoinSnoc([v, c, sp], t);
    Join3(v, c, sp);
    assert [v, c, sp, t, nl] == [v, c, sp, t] + [nl] && [v, c, sp, t] == [v, c, sp] + [t];
  }

  lemma JoinHeaders(a: string, b: string, c: string, d: string, e: string, nl: string)
    ensures Chunks.Join([a, b, nl, c, d, nl, e, nl, nl]) == (a + b + nl) + (c + d + nl) + (e + nl + nl)
  {
    hide Chunks.Join;
    JoinAppend([a, b, nl, c, d, nl], [e, nl, nl]);
    JoinAppend([a, b, nl], [c, d, nl]);
    Join3(a, b, nl);
    Join3(c, d, nl);
    Join3(e, nl, nl);
    assert [a, b, nl, c, d, nl, e, nl, nl] == [a, b, nl, c, d, nl] + [e, nl, nl];
    assert [a, b, nl, c, d, nl] == [a, b, nl] + [c, d, nl];
  }

  lemma Regroup(a: string, b: string, c: string, e: string, nl: string, body: string)
    ensures a + (b + c + (e + nl + nl)) + body == a + (b + (c + (e + nl + ("" + nl + body))))
  {
    assert (e + nl + nl) + body == e + nl + ("" + nl + body);
  }

  lemma TextInLines(code: int, total: nat, contentType: string, body: string)
    ensures ResponseText(code, total, contentType, body) == InLines(code, total, contentType, body)
  {
    hide Chunks.Join;
    hide SignedDecimal;
    hide Decimal;
    hide H.StatusText;
    var nl: string := CRLF;
    JoinStatus(H.VERSION, SignedDecimal(code), " ", H.StatusText(code), nl);
    JoinHeaders(H.CONTENT_LENGTH, Decimal(total), H.CONTENT_TYPE, contentType, H.CONNECTION, nl);
    Regroup(StatusLine(code) + nl, LengthLine(total) + nl, TypeLine(contentType) + nl, H.CONNECTION, nl, body);
  }

  // ----- the lines contain no line break of their own -----

  lemma {:induction false} BalancedBehindCrFree(a: string, b: string)
    requires CR !in a
    ensures Balanced(a + b) <==> Balanced(b)
    decreases |a|
  {
    if a == "" {
      assert a + b == b;
    } else {
      assert (a + b)[1..] == a[1..] + b;
      BalancedBehindCrFree(a[1..], b);
    }
  }

  lemma DigitsAreCrFree(n: nat)
    ensures CR !in Decimal(n)
  {
    hide Decimal;
  }

  lemma StatusTextIsCrFree(code: int)
    ensures CR !in H.StatusText(code)
  {
  }

  lemma StatusLineIsBalanced(code: int)
    ensures Balanced(StatusLine(code)) && |StatusLine(code)| <= 31 + |SignedDecimal(code)|
  {
    hide Decimal;
    StatusTextIsCrFree(code);
    if code < 0 { DigitsAreCrFree(-code); } else { DigitsAreCrFree(code); }
    hide H.StatusText;
    CrFreeIsBalanced(StatusLine(code));
  }

  lemma LengthLineIsBalanced(total: nat)
    ensures Balanced(LengthLine(total)) && LengthLine(total) != ""
  {
    hide Decimal;
    DigitsAreCrFree(total);
    CrFreeIsBalanced(LengthLine(total));
  }

  lemma TypeLineBalancedIff(contentType: string)
    ensures Balanced(TypeLine(contentType)) <==> Balanced(contentType)
    ensures TypeLine(contentType) != ""
  {
    BalancedBehindCrFree(H.CONTENT_TYPE, contentType);
  }

  lemma ConnectionIsBalanced()
    ensures Balanced(H.CONNECTION) && H.CONNECTION != ""
  {
    CrFreeIsBalanced(H.CONNECTION);
  }

  // ----- the round trip -----

  /** The listener's own reading functions find this status line, these header lines, and this body. */
  ghost predicate ParsesTo(limit: nat, input: string, junk: char, status: string, lines: seq<string>, body: string) {
    var l := LineOf(limit, input, junk, "");
    l.ok && l.text == status && ReadsHeaders(limit, l.rest, junk, lines, body)
  }

  lemma LineThen(limit: nat, text: string, rest: string, junk: char)
    requires Balanced(text) && |text| <= limit + 1
    ensures LineOf(limit, text + CRLF + rest, junk, "") == Line(true, text, rest)
  {
    BalancedReadsBack(limit, text, rest, junk, "");
    assert "" + text == text;
  }

  lemma OkLineIsBalanced(limit: nat, input: string, junk: char)
    requires LineOf(limit, input, junk, "").ok
    ensures Balanced(LineOf(limit, input, junk, "").text)
  {
    var t := OkMeansLine(limit, input, junk, "");
    assert "" + t == t;
  }

  lemma HeadersReadIff(limit: nat, junk: char, total: nat, contentType: string, body: string)
    requires limit >= 63 && |TypeLine(contentType)| <= limit + 1 && total < Text.UINT32
    ensures ReadsHeaders(limit, AfterStatus(total, contentType, body), junk, HeaderLines(total, contentType), body)
            <==> Balanced(contentType)
  {
    hide LineOf;
    hide Decimal;
    hide Balanced;
    H.UnsignedFits(total);
    LengthLineIsBalanced(total);
    LineThen(limit, LengthLine(total), AfterLength(contentType, body), junk);
    TypeLineBalancedIff(contentType);
    var lines := HeaderLines(total, contentType);
    assert lines[1..] == [TypeLine(contentType), H.CONNECTION] && lines[1..][1..] == [H.CONNECTION];
    if Balanced(contentType) {
      LineThen(limit, TypeLine(contentType), AfterType(body), junk);
      ConnectionIsBalanced();
      LineThen(limit, H.CONNECTION, "" + CRLF + body, junk);
      CrFreeIsBalanced("");
      LineThen(limit, "", body, junk);
      assert [H.CONNECTION][1..] == [];
      assert ReadsHeaders(limit, "" + CRLF + body, junk, [], body);
      assert ReadsHeaders(limit, AfterType(body), junk, [H.CONNECTION], body);
      assert ReadsHeaders(limit, AfterLength(contentType, body), junk, lines[1..], body);
    } else if ReadsHeaders(limit, AfterStatus(total, contentType, body), junk, lines, body) {
      assert ReadsHeaders(limit, AfterLength(contentType, body), junk, lines[1..], body);
      OkLineIsBalanced(limit, AfterLength(contentType, body), junk);
    }
  }

  /** The response parses back to its status line, its three headers and its body iff the content type
      holds no line break that read_line would see. */
  lemma ResponseParsesIff(limit: nat, junk: char, code: int, total: nat, contentType: string, body: string)
    requires -0x8000_0000 < code < 0x8000_0000 && total < Text.UINT32
    requires limit >= 63 && |TypeLine(contentType)| <= limit + 1
    ensures ParsesTo(limit, ResponseText(code, total, contentType, body), junk, StatusLine(code),
                     HeaderLines(total, contentType), body)
            <==> Balanced(contentType)
  {
    hide *;
    TextInLines(code, total, contentType, body);
    H.SignedFits(code);
    StatusLineIsBalanced(code);
    InLinesIs(code, total, contentType, body);
    LineThen(limit, StatusLine(code), AfterStatus(total, contentType, body), junk);
    HeadersReadIff(limit, junk, total, contentType, body);
    ParsesToIs(limit, ResponseText(code, total, contentType, body), junk, StatusLine(code),
               HeaderLines(total, contentType), body);
  }

  lemma InLinesIs(code: int, total: nat, contentType: string, body: string)
    ensures InLines(code, total, contentType, body) == StatusLine(code) + CRLF + AfterStatus(total, contentType, body)
  {
  }

  lemma ParsesToIs(limit: nat, input: string, junk: char, status: string, lines: seq<string>, body: string)
    ensures ParsesTo(limit, input, junk, status, lines, body)
            <==> var l := LineOf(limit, input, junk, "");
                 l.ok && l.text == status && ReadsHeaders(limit, l.rest, junk, lines, body)
  {
  }

  /** A header line is split at its first colon, and refused iff it has none. */
  lemma HeaderSplits(key: string, val: string)
    requires ':' !in key
    ensures HeaderOf(key + ":" + val) == Header(Trim(key), Trim(val)) && HeaderOf(key) == NoColon
  {
    hide Trim;
    var line := key + ":" + val;
    assert line[|key|] == ':' && line[0..|key|] == key;
    IndexOfIs(line, ':', 0, |key|);
    assert line[..|key|] == key && line[|key| + 1..] == val;
    assert key[0..] == key;
  }

  lemma KeyedLine(key: string, val: string)
    requires ':' !in key && Trimmed(key) && Trimmed(val)
    ensures HeaderOf(key + ":" + (" " + val)) == Header(key, val)
  {
    hide Trim;
    hide HeaderOf;
    hide Trimmed;
    HeaderSplits(key, " " + val);
    assert "" + key + "" == key && " " + val + "" == " " + val;
    TrimIs("", key, "");
    TrimIs(" ", val, "");
  }

  /** The other two headers parse to their keys and values. */
  lemma TypeHeaderParses(contentType: string)
    requires Trimmed(contentType)
    ensures HeaderOf(TypeLine(contentType)) == Header("Content-Type", contentType)
  {
    hide HeaderOf;
    KeyedLine("Content-Type", contentType);
    assert TypeLine(contentType) == "Content-Type" + ":" + (" " + contentType);
  }

  lemma ConnectionHeaderParses()
    ensures HeaderOf(H.CONNECTION) == Header("Connection", "close")
  {
    hide HeaderOf;
    KeyedLine("Connection", "close");
    assert H.CONNECTION == "Connection" + ":" + (" " + "close");
  }

  /** The reason phrases of section 6.1 of RFC 7231, for the codes there are. */
  lemma ReasonPhrases(code: int)
    ensures code in {200, 201, 202, 400, 401, 403, 404, 405, 500} <==> H.StatusText(code) != "Unknown"
    ensures H.StatusText(200) == "OK" && H.StatusText(201) == "Created" && H.StatusText(202) == "Accepted"
    ensures H.StatusText(400) == "Bad Request" && H.StatusText(401) == "Unauthorized" && H.StatusText(403) == "Forbidden"
    ensures H.StatusText(404) == "Not Found" && H.StatusText(405) == "Method Not Allowed"
    ensures H.StatusText(500) == "Internal Server Error"
  {
  }

  /** A whole response, written out. */
  lemma ResponseExample()
    ensures ResponseText(200, 23, "text/plain", "hi")
         == "HTTP/1.1 200 OK\r\n" + "Content-Length: 23\r\n" + "Content-Type: text/plain\r\n" + "Connection: close\r\n" + "\r\n" + "hi"
  {
    hide Decimal;
    hide ResponseText;
    TextInLines(200, 23, "text/plain", "hi");
    TwentyThree();
    TwoHundred();
    var a, b, c, d := StatusLine(200) + CRLF, LengthLine(23) + CRLF, TypeLine("text/plain") + CRLF, H.CONNECTION + CRLF;
    assert a == "HTTP/1.1 200 OK\r\n";
    assert b == "Content-Length: 23\r\n";
    assert c == "Content-Type: text/plain\r\n";
    assert d == "Connection: close\r\n";
    RightToLeft(a, b, c, d, CRLF, "hi");
  }

  lemma TwoHundred()
    ensures Decimal(200) == "200"
  {
    DigitTable(2);
    DigitTable(0);
    assert Decimal(20) == "2" + "0" == "20";
    assert Decimal(200) == "20" + "0" == "200";
  }

  lemma RightToLeft(a: string, b: string, c: string, d: string, e: string, f: string)
    ensures a + (b + (c + (d + ("" + e + f)))) == a + b + c + d + e + f
  {
    assert "" + e + f == e + f;
  }

  /** The first header parses to the key Content-Length, in any case, and a number equal to total. */
  lemma LengthHeaderParses(total: nat)
    requires total < Text.UINT32
    ensures var h := HeaderOf(LengthLine(total));
            && h.Header? && SameIgnoringCase(h.key, "Content-Length")
            && Digits(h.val) && Value(h.val) % Text.UINT32 == total
  {
    hide Decimal;
    hide Trim;
    hide IndexOf;
    hide Value;
    var line, key, val := LengthLine(total), "Content-Length", Decimal(total);
    ValueOfDecimal(total);
    assert line == key + ": " + val;
    assert line[14] == ':' && line[0..14] == key;
    assert ':' !in key;
    IndexOfIs(line, ':', 0, 14);
    assert line[..14] == "" + key + "" && line[15..] == " " + val + "";
    TrimIs("", key, "");
    TrimIs(" ", val, "");
  }

  /** The Content-Length that is read back is the number of body bytes iff the body is under four gigabytes. */
  lemma ContentLengthIff(body: string)
    ensures var h := HeaderOf(LengthLine(|body| % Text.UINT32));
            && h.Header? && SameIgnoringCase(h.key, "Content-Length") && Digits(h.val)
            && (Value(h.val) % Text.UINT32 == |body| <==> |body| < Text.UINT32)
  {
    hide HeaderOf;
    hide LengthLine;
    hide Value;
    LengthHeaderParses(|body| % Text.UINT32);
  }

  // ----- from body writes to parsed response -----

  lemma {:induction false} PiecesAreShort(arena: seq<Chunks.Chunk>, pos: nat, i: nat)
    requires i < |arena| && forall k | 0 <= k < |arena| :: |arena[k].bytes| < Text.UINT32
    ensures Short(Chunks.Enumerate(arena, pos, i).list)
    decreases |arena| - i
  {
    match arena[i].next
    case Null =>
    case Wild =>
    case To(j) => if i < j < |arena| { PiecesAreShort(arena, pos, j); }
  }

  lemma HeadIsShort(code: int, total: nat, contentType: string)
    requires -0x8000_0000 < code < 0x8000_0000 && total < Text.UINT32 && |contentType| < Text.UINT32
    ensures Short(H.StatusPieces(code)) && Short(H.HeaderPieces(total, contentType))
  {
    hide Decimal;
    hide SignedDecimal;
    H.SignedFits(code);
    H.UnsignedFits(total);
  }

  /** Collect the writes in chunks of any size: all of them, iff the memory holds them. */
  method Collect(cb: Chunks.ChunkBuffer, writes: seq<string>, junk: char) returns (ok: bool)
    requires cb.Valid() && cb.Contents() == ""
    modifies cb
    ensures cb.Valid() && cb.chunkSize == old(cb.chunkSize)
    ensures ok <==> |Chunks.Join(writes)| <= old(cb.Capacity())
    ensures if ok then cb.Contents() == Chunks.Join(writes) else cb.heap == 0 && cb.pos == cb.chunkSize
  {
    hide *;
    assert writes[..0] == [];
    JoinNone();
    for k := 0 to |writes|
      invariant cb.Valid() && cb.chunkSize == old(cb.chunkSize) && cb.Contents() == Chunks.Join(writes[..k])
      invariant |cb.arena| + cb.heap == old(|cb.arena| + cb.heap)
    {
      assert writes[..k + 1] == writes[..k] + [writes[k]];
      JoinSnoc(writes[..k], writes[k]);
      ghost var n;
      ok, n := cb.Write(writes[k], junk);
      if !ok {
        cb.ContentsFit();
        CapacityIs(cb);
        assert writes == writes[..k + 1] + writes[k + 1..];
        JoinAppend(writes[..k + 1], writes[k + 1..]);
        return;
      }
      assert writes[k][..|writes[k]|] == writes[k];
    }
    assert writes[..|writes|] == writes;
    cb.ContentsFit();
    CapacityIs(cb);
    ok := true;
  }

  twostate lemma CapacityIs(cb: Chunks.ChunkBuffer)
    requires cb.chunkSize == old(cb.chunkSize) && |cb.arena| + cb.heap == old(|cb.arena| + cb.heap)
    ensures cb.Capacity() == old(cb.Capacity())
  {
  }

  lemma JoinNone()
    ensures Chunks.Join([]) == ""
  {
  }

  /** Every write is taken. */
  ghost predicate NeverFails(plan: Plan) { forall k :: plan(k).Wrote? }

  lemma {:induction false} PutAllGoes(plan: Plan, s: State, texts: seq<string>)
    requires NeverFails(plan)
    ensures H.PutAll(plan, s, texts).1
    decreases |texts|
  {
    if texts != [] { PutAllGoes(plan, s, texts[..|texts| - 1]); }
  }

  lemma {:induction false} PutBodyGoes(plan: Plan, s: State, pieces: seq<string>)
    requires NeverFails(plan)
    ensures H.PutBody(plan, s, pieces).1
    decreases |pieces|
  {
    if pieces != [] {
      PutBodyGoes(plan, H.Put(plan, s, pieces[0]).0, pieces[1..]);
    }
  }

  lemma RespondGoes(plan: Plan, s: State, status: seq<string>, headers: seq<string>, body: seq<string>)
    ensures NeverFails(plan) ==> H.Respond(plan, s, status, headers, body).complete
  {
    hide H.PutAll;
    hide H.PutBody;
    if NeverFails(plan) {
      PutAllGoes(plan, s, status);
      PutAllGoes(plan, H.PutAll(plan, s, status).0, headers);
      PutBodyGoes(plan, H.PutAll(plan, H.PutAll(plan, s, status).0, headers).0, body);
    }
  }

  /** Status line and headers, with the empty line behind them. */
  function HeadText(code: int, total: nat, contentType: string): string {
    Chunks.Join(H.StatusPieces(code)) + Chunks.Join(H.HeaderPieces(total, contentType))
  }

  lemma HeadTextIs(code: int, total: nat, contentType: string, body: string)
    ensures "" + Chunks.Join(H.StatusPieces(code)) + Chunks.Join(H.HeaderPieces(total, contentType))
         == HeadText(code, total, contentType)
    ensures ResponseText(code, total, contentType, body) == HeadText(code, total, contentType) + body
  {
    hide Chunks.Join;
    hide H.StatusPieces;
    hide H.HeaderPieces;
    var s := Chunks.Join(H.StatusPieces(code));
    assert "" + s == s;
  }

  /** Whatever the body writes, the chunk size and the failures of the base: nothing goes out unless the
      body fits the memory; success is reported iff it does and status line and headers went out; the
      response went out completely iff the base holds just its text, which the listener's parser reads
      back as the status line, the three headers and the concatenated writes iff the content type has no
      line break it would see; and where no write fails it does go out. After that the loop runs wild iff
      the body took more than one chunk of memory that was not zero-filled. */
  method Serve(cb: Chunks.ChunkBuffer, writes: seq<string>, status: int, contentType: string, stream: BufferedStream,
               junk: char)
    returns (ok: bool, ghost complete: bool, wild: bool)
    requires cb.Valid() && cb.Contents() == "" && 0 < cb.chunkSize < Text.UINT32
    requires stream.Valid() && !stream.buffered && stream.Now() == State("", "", stream.base.calls)
    requires AllOrFail(stream.base.plan)
    requires -0x8000_0000 < status < 0x8000_0000 && |TypeLine(contentType)| <= 1024
    modifies cb, stream, stream.base, stream.buffer
    ensures stream.Valid()
    ensures |Chunks.Join(writes)| > old(cb.Capacity()) ==> !ok && !complete && !wild && stream.base.out == ""
    ensures |Chunks.Join(writes)| <= old(cb.Capacity()) ==>
      var body := Chunks.Join(writes);
      var total := |body| % Text.UINT32;
      && (ok <==> HeadText(status, total, contentType) <= stream.base.out)
      && (complete <==> stream.base.out == ResponseText(status, total, contentType, body))
      && (wild <==> complete && !cb.zeroed && |body| > old(cb.chunkSize))
      && (NeverFails(stream.base.plan) ==> ok && complete)
    ensures complete ==>
      var body := Chunks.Join(writes);
      ParsesTo(AppendLimit(1024), stream.base.out, junk, StatusLine(status), HeaderLines(|body| % Text.UINT32, contentType), body)
      <==> Balanced(contentType)
  {
    hide H.PutAll;
    hide H.PutBody;
    hide H.Respond;
    hide H.StatusPieces;
    hide H.HeaderPieces;
    hide Decimal;
    hide Balanced;
    hide ParsesTo;
    hide Chunks.Join;
    hide HeadText;
    hide ResponseText;
    hide NeverFails;
    ok := Collect(cb, writes, junk);
    if !ok { return false, false, false; }
    ghost var pieces, total := H.BodyPieces(cb), cb.total;
    Chunks.EnumerationIff(cb);
    PiecesAreShort(cb.arena, cb.pos, 0);
    HeadIsShort(status, total, contentType);
    ResponseReportIff(stream.base.plan, stream.Now(), H.StatusPieces(status), H.HeaderPieces(total, contentType), pieces);
    RespondGoes(stream.base.plan, stream.Now(), H.StatusPieces(status), H.HeaderPieces(total, contentType), pieces);
    HeadTextIs(status, total, contentType, Chunks.Join(writes));
    H.RunsIs(cb);
    ok, complete, wild := H.WriteResponse(stream, cb, status, contentType);
    ResponseParsesIff(AppendLimit(1024), junk, status, total, contentType, Chunks.Join(writes));
  }
}
