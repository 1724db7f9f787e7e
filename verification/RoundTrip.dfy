/** What is printed is parsed back: requests, responses, and streams of them under any segmentation. */
module RoundTrip {
  import opened KvSpec
  import opened Wire
  import opened Chunking

  lemma FrameByFraming<T(!new)>(max: nat, lineOf: string -> Line<T>, f: Framer<T>)
    requires forall a :: f(a) == FrameBy(a, max, lineOf)
    ensures Framing(f, max)
  {
    forall a ensures FramesWell(f, max, a) {
      if FrameBy(a, max, lineOf).Took? {
        FrameNeedsOnlyItself(a, max, lineOf);
      }
    }
    forall a, b ensures IgnoresRest(f, a, b) {
      if FrameBy(a, max, lineOf).Took? {
        FrameIgnoresRest(a, b, max, lineOf);
      }
    }
  }

  /** Both parsers of the protocol frame well, so the chunking theorems hold of them. */
  lemma ParsersFrameWell()
    ensures Framing(RequestFrame, MAX_COMMAND_LINE_LEN) && Framing(ResponseFrame, MAX_RESPONSE_LINE_LEN)
  {
    FrameByFraming(MAX_COMMAND_LINE_LEN, CommandLine, RequestFrame);
    FrameByFraming(MAX_RESPONSE_LINE_LEN, ResponseLine, ResponseFrame);
  }

  /** What the server's parser makes of a stream fed at once, and of one read in chunks. */
  function DrainRequests(stream: string): Drained<Request> {
    ParsersFrameWell();
    Drain(RequestFrame, MAX_COMMAND_LINE_LEN, stream)
  }

  function FeedRequests(chunks: seq<string>): Drained<Request> {
    ParsersFrameWell();
    FeedAll(RequestFrame, MAX_COMMAND_LINE_LEN, Drained([], ""), chunks)
  }

  function FeedResponses(chunks: seq<string>): Drained<Response> {
    ParsersFrameWell();
    FeedAll(ResponseFrame, MAX_RESPONSE_LINE_LEN, Drained([], ""), chunks)
  }

  /** Every LF-terminated command line of the stream has at most 265 bytes before its LF. */
  predicate ShortCommandLines(stream: string) {
    ParsersFrameWell();
    ShortLines(RequestFrame, MAX_COMMAND_LINE_LEN, stream)
  }

  /** The request parser's answers do not depend on how the network cuts up the stream exactly when all its complete
      command lines are short; and a drain ends after at most one answer per LF. */
  lemma RequestChunking(stream: string)
    ensures (forall chunks :: Reads(chunks) && Flatten(chunks) == stream ==> FeedRequests(chunks) == DrainRequests(stream))
            <==> ShortCommandLines(stream)
    ensures |DrainRequests(stream).outs| <= LineFeeds(stream)
  {
    ParsersFrameWell();
    ChunkingIffShortLines(RequestFrame, MAX_COMMAND_LINE_LEN, stream);
    OneItemPerLineFeed(RequestFrame, MAX_COMMAND_LINE_LEN, stream);
    assert forall chunks :: FeedRequests(chunks) == FeedAll(RequestFrame, MAX_COMMAND_LINE_LEN, Drained([], ""), chunks);
  }

  /** Every command line of the stream, the unterminated last one included, has at most 265 bytes. */
  predicate CommandLinesFit(stream: string) {
    ParsersFrameWell();
    LinesFit(RequestFrame, MAX_COMMAND_LINE_LEN, stream)
  }

  /** What is behind the last complete request of the buffer is a complete line or has at most 265 bytes. */
  predicate LastCommandFits(buffer: string) {
    ParsersFrameWell();
    LastLineFits(RequestFrame, MAX_COMMAND_LINE_LEN, buffer)
  }

  /** The same after each of the reads `chunks`, behind what was buffered before. */
  predicate ReadsFit(buffer: string, chunks: seq<string>) {
    ParsersFrameWell();
    PrefixesFit(RequestFrame, MAX_COMMAND_LINE_LEN, buffer, chunks)
  }

  /** When the drain loops return: for one buffer exactly when its last command fits; for a stream cut up in any way
      exactly when all its command lines fit. */
  lemma DrainLoopReturns(stream: string)
    ensures DrainRequests(stream).Drained? <==> LastCommandFits(stream)
    ensures (forall chunks :: Reads(chunks) && Flatten(chunks) == stream ==> FeedRequests(chunks).Drained?)
            <==> CommandLinesFit(stream)
  {
    ParsersFrameWell();
    DrainReturnsIff(RequestFrame, MAX_COMMAND_LINE_LEN, stream);
    AlwaysReturnsIff(RequestFrame, MAX_COMMAND_LINE_LEN, stream);
    assert forall chunks :: FeedRequests(chunks) == FeedAll(RequestFrame, MAX_COMMAND_LINE_LEN, Drained([], ""), chunks);
  }

  /** The input that hangs a connection's reactor: any 266 bytes without LF. */
  lemma LongLineHangs(line: string)
    requires |line| > MAX_COMMAND_LINE_LEN && IndexOf(line, '\n') == |line|
    ensures FeedRequests([line]) == Stuck([]) && !CommandLinesFit(line) && !LastCommandFits(line)
  {
    ParsersFrameWell();
    HangsBy(RequestFrame, MAX_COMMAND_LINE_LEN, line);
  }

  lemma HangsBy<T>(f: Framer<T>, max: nat, line: string)
    requires Framing(f, max) && |line| > max && IndexOf(line, '\n') == |line|
    ensures FeedAll(f, max, Drained([], ""), [line]) == Stuck([]) && !LinesFit(f, max, line) && !LastLineFits(f, max, line)
  {
    assert FramesWell(f, max, line) && "" + line == line && [line][1..] == [];
  }

  // ---------- Numbers ----------

  lemma {:induction false} DecimalDigits(n: nat)
    ensures forall i :: 0 <= i < |Decimal(n)| ==> IsDigit(Decimal(n)[i])
    ensures NumberOf(Decimal(n)) == n
  {
    if n >= 10 {
      DecimalDigits(n / 10);
      assert Decimal(n)[..|Decimal(n)| - 1] == Decimal(n / 10);
    } else {
      assert Decimal(n)[..0] == "";
    }
  }

  lemma {:induction false} DecimalLength(n: nat, d: nat, bound: nat)
    requires n < bound && bound == Pow10(d) && d > 0
    ensures |Decimal(n)| <= d
    decreases d
  {
    if n >= 10 {
      DecimalLength(n / 10, d - 1, Pow10(d - 1));
    }
  }

  function Pow10(d: nat): nat {
    if d == 0 then 1 else 10 * Pow10(d - 1)
  }

  /** Every length the protocol allows is read back from its decimal form. */
  lemma LengthRoundTrip(n: nat)
    ensures ParseLength(Decimal(n)) == if n <= MAX_VALUE_LEN then Some(n) else None
    ensures n <= MAX_VALUE_LEN ==> |Decimal(n)| <= 7
  {
    DecimalDigits(n);
    if n <= MAX_VALUE_LEN {
      assert Pow10(7) == 10_000_000;
      DecimalLength(n, 7, Pow10(7));
    }
  }

  // ---------- Tokens ----------

  predicate Free(s: string, c: char) {
    forall i :: 0 <= i < |s| ==> s[i] != c
  }

  predicate EndsInCr(s: string) {
    s != "" && s[|s| - 1] == '\r'
  }

  lemma FirstToken(a: string, b: string)
    requires Free(a, ' ')
    ensures Tokens(a + " " + b) == [a] + Tokens(b)
  {
    var s := a + " " + b;
    IndexOfIs(s, ' ', |a|);
    assert s[..|a|] == a && s[|a| + 1..] == b;
  }

  lemma LastToken(a: string)
    requires Free(a, ' ')
    ensures Tokens(a) == [a]
  {
  }

  /** Tokenising is undone by joining with spaces, and no token contains a space. */
  lemma {:induction false} TokensJoin(line: string)
    ensures Joined(Tokens(line)) == line && forall i :: 0 <= i < |Tokens(line)| ==> Free(Tokens(line)[i], ' ')
    decreases |line|
  {
    var i := IndexOf(line, ' ');
    if i < |line| {
      TokensJoin(line[i + 1..]);
      assert Tokens(line)[1..] == Tokens(line[i + 1..]);
      assert line == line[..i] + " " + line[i + 1..];
    }
  }

  function Joined(ts: seq<string>): string
    requires |ts| > 0
  {
    if |ts| == 1 then ts[0] else ts[0] + " " + Joined(ts[1..])
  }

  // ---------- One message ----------

  lemma LineAt(line: string, rest: string)
    requires Free(line, '\n') && (line == "" || line[|line| - 1] != '\r')
    ensures IndexOf(line + "\n" + rest, '\n') == |line| && StripCr((line + "\n" + rest)[..|line|]) == line
  {
    IndexOfIs(line + "\n" + rest, '\n', |line|);
    assert (line + "\n" + rest)[..|line|] == line;
  }

  lemma WholeRoundTrip<T>(msg: string, line: string, rest: string, item: Item<T>, max: nat, lineOf: string -> Line<T>)
    requires Free(line, '\n') && (line == "" || line[|line| - 1] != '\r') && lineOf(line) == Whole(item)
    requires msg == line + "\n"
    ensures FrameBy(msg + rest, max, lineOf) == Took(item, |msg|)
  {
    LineAt(line, rest);
  }

  lemma ValueRoundTrip<T>(msg: string, line: string, v: Value, rest: string, max: nat, lineOf: string -> Line<T>)
    requires Free(line, '\n') && (line == "" || line[|line| - 1] != '\r')
    requires lineOf(line).NeedsValue? && lineOf(line).len == |v| && msg == line + "\n" + (v + "\n")
    ensures FrameBy(msg + rest, max, lineOf) == Took(Parsed(lineOf(line).make(v)), |msg|)
  {
    var buf := msg + rest;
    assert buf == line + "\n" + (v + "\n" + rest);
    LineAt(line, v + "\n" + rest);
    assert buf[|line| + 1..|line| + 1 + |v|] == v;
  }

  // ---------- Requests ----------

  /** The requests the grammar allows. */
  predicate ValidRequest(r: Request) {
    match r
    case Get(k) => ValidKey(k)
    case Delete(k) => ValidKey(k)
    case Set(k, v) => ValidKey(k) && |v| <= MAX_VALUE_LEN
    case Ping => true
  }

  /** The command line of a request, without its LF. */
  function CommandOf(r: Request): string {
    match r
    case Get(k) => "GET" + " " + k
    case Delete(k) => "DELETE" + " " + k
    case Set(k, v) => "SET" + " " + (k + " " + Decimal(|v|))
    case Ping => "PING"
  }

  function PayloadOf(r: Request): string {
    if r.Set? then r.value + "\n" else ""
  }

  lemma EncodeIsCommand(r: Request)
    ensures EncodeRequest(r) == CommandOf(r) + "\n" + PayloadOf(r)
  {
    match r
    case Get(k) => assert "GET " + k == "GET" + " " + k;
    case Delete(k) => assert "DELETE " + k == "DELETE" + " " + k;
    case Set(k, v) =>
      assert "SET " + k + " " + Decimal(|v|) == CommandOf(r);
      assert EncodeRequest(r) == CommandOf(r) + "\n" + (v + "\n");
    case Ping =>
  }

  lemma KeyIsPlain(k: string)
    requires ValidKey(k)
    ensures Free(k, ' ') && Free(k, '\n') && Free(k, '\r')
  {
  }

  lemma CommandIsPlain(r: Request)
    requires ValidRequest(r)
    ensures Free(CommandOf(r), '\n') && Free(CommandOf(r), '\r') && |CommandOf(r)| <= MAX_COMMAND_LINE_LEN
  {
    if !r.Ping? { KeyIsPlain(r.key); }
    if r.Set? {
      DecimalIsPlain(|r.value|);
      LengthRoundTrip(|r.value|);
    }
  }

  lemma TwoTokens(a: string, b: string)
    requires Free(a, ' ') && Free(b, ' ')
    ensures Tokens(a + " " + b) == [a, b]
  {
    FirstToken(a, b);
    LastToken(b);
  }

  lemma CommandTokens(r: Request)
    requires ValidRequest(r)
    ensures Tokens(CommandOf(r)) ==
            match r
            case Get(k) => ["GET", k]
            case Delete(k) => ["DELETE", k]
            case Set(k, v) => ["SET", k, Decimal(|v|)]
            case Ping => ["PING"]
  {
    if !r.Ping? { KeyIsPlain(r.key); }
    match r
    case Get(k) => TwoTokens("GET", k);
    case Delete(k) => TwoTokens("DELETE", k);
    case Set(k, v) =>
      DecimalIsPlain(|v|);
      FirstToken("SET", k + " " + Decimal(|v|));
      TwoTokens(k, Decimal(|v|));
    case Ping => LastToken("PING");
  }

  predicate ReadsAs(line: Line<Request>, r: Request) {
    if r.Set? then line.NeedsValue? && line.len == |r.value| && line.make(r.value) == r else line == Whole(Parsed(r))
  }

  lemma SetIsRead(k: Key, v: Value, d: string)
    requires ValidKey(k) && ParseLength(d) == Some(|v|)
    ensures ReadsAs(Command(["SET", k, d]), Set(k, v))
  {
    assert "SET"[0] == 'S' && "GET"[0] == 'G' && "DELETE"[0] == 'D' && "PING"[0] == 'P';
  }

  lemma CommandIsRead(r: Request)
    requires ValidRequest(r)
    ensures ReadsAs(CommandLine(CommandOf(r)), r)
  {
    CommandTokens(r);
    match r
    case Set(k, v) =>
      LengthRoundTrip(|v|);
      SetIsRead(k, v, Decimal(|v|));
    case Get(k) => assert ReadsAs(Command(["GET", k]), r);
    case Delete(k) => assert ReadsAs(Command(["DELETE", k]), r);
    case Ping => assert ReadsAs(Command(["PING"]), r);
  }

  /** A valid request, followed by anything, is read back exactly and leaves exactly what follows. */
  lemma RequestRoundTrip(r: Request, rest: string)
    requires ValidRequest(r)
    ensures RequestFrame(EncodeRequest(r) + rest) == Took(Parsed(r), |EncodeRequest(r)|)
  {
    var line := CommandOf(r);
    EncodeIsCommand(r);
    CommandIsPlain(r);
    CommandIsRead(r);
    if r.Set? {
      ValueRoundTrip(EncodeRequest(r), line, r.value, rest, MAX_COMMAND_LINE_LEN, CommandLine);
    } else {
      assert EncodeRequest(r) == line + "\n";
      WholeRoundTrip(EncodeRequest(r), line, rest, Parsed(r), MAX_COMMAND_LINE_LEN, CommandLine);
    }
  }

  /** The parser accepts nothing the grammar does not allow. */
  lemma AcceptedIsValid(buf: string)
    requires RequestFrame(buf).Took? && RequestFrame(buf).item.Parsed?
    ensures ValidRequest(RequestFrame(buf).item.msg)
  {
    var line := StripCr(buf[..IndexOf(buf, '\n')]);
    assert CommandLine(line).Whole? ==> CommandLine(line).item.Parsed?;
  }

  /** Faithful forwarding: whatever bytes a client sent, the request the router's parser accepted re-encodes to bytes
      that a backend's parser reads as the same request, with nothing left over. */
  lemma ForwardingIsFaithful(buf: string)
    requires RequestFrame(buf).Took? && RequestFrame(buf).item.Parsed?
    ensures var r := RequestFrame(buf).item.msg;
            RequestFrame(EncodeRequest(r)) == Took(Parsed(r), |EncodeRequest(r)|)
  {
    AcceptedIsValid(buf);
    var r := RequestFrame(buf).item.msg;
    RequestRoundTrip(r, "");
    assert EncodeRequest(r) + "" == EncodeRequest(r);
  }

  // ---------- Responses ----------

  /** The responses that survive the wire: values within the limit, and messages that fit on a line. */
  predicate Sendable(r: Response) {
    match r
    case ValueIs(v) => |v| <= MAX_VALUE_LEN
    case Error(m) => Free(m, '\n') && (m == "" || m[|m| - 1] != '\r')
    case _ => true
  }

  /** The first line of a response, without its LF. */
  function HeadOf(r: Response): string {
    match r
    case ValueIs(v) => "VALUE " + Decimal(|v|)
    case NotFound => "NOT_FOUND"
    case Ok => "OK"
    case Deleted => "DELETED"
    case Error(m) => "ERROR " + m
    case Pong => "PONG"
  }

  lemma EncodeIsHead(r: Response)
    ensures EncodeResponse(r) == HeadOf(r) + "\n" + if r.ValueIs? then r.value + "\n" else ""
  {
    if r.ValueIs? {
      assert EncodeResponse(r) == HeadOf(r) + "\n" + (r.value + "\n");
    }
  }

  lemma HeadIsPlain(r: Response)
    requires Sendable(r)
    ensures Free(HeadOf(r), '\n') && HeadOf(r)[|HeadOf(r)| - 1] != '\r'
  {
    if r.ValueIs? {
      DecimalIsPlain(|r.value|);
      PlainAfter("VALUE ", Decimal(|r.value|));
    } else if r.Error? {
      PlainAfter("ERROR ", r.message);
    }
  }

  lemma DecimalIsPlain(n: nat)
    ensures Free(Decimal(n), '\n') && Free(Decimal(n), '\r') && Free(Decimal(n), ' ')
  {
    DecimalDigits(n);
  }

  lemma PlainAfter(a: string, b: string)
    requires Free(a, '\n') && Free(b, '\n') && a != "" && a[|a| - 1] != '\r' && (b == "" || b[|b| - 1] != '\r')
    ensures Free(a + b, '\n') && (a + b)[|a + b| - 1] != '\r'
  {
  }

  lemma ErrorIsRead(m: string)
    ensures ResponseLine("ERROR " + m) == Whole(Parsed(Error(m)))
  {
    var line := "ERROR " + m;
    assert line[0] == 'E' && line[1] == 'R' && line[5] == ' ';
    assert line[6..] == m;
  }

  lemma ValueIsRead(n: nat)
    ensures var l := ResponseLine("VALUE " + Decimal(n));
            if n <= MAX_VALUE_LEN then l.NeedsValue? && l.len == n && forall v :: l.make(v) == ValueIs(v)
            else l == Whole(Bad("malformed VALUE response"))
  {
    var line := "VALUE " + Decimal(n);
    assert line[0] == 'V' && line[5] == ' ';
    assert line[6..] == Decimal(n);
    LengthRoundTrip(n);
  }

  lemma ResponseIsRead(r: Response, rest: string)
    requires Sendable(r)
    ensures ResponseFrame(EncodeResponse(r) + rest) == Took(Parsed(r), |EncodeResponse(r)|)
  {
    var line := HeadOf(r);
    EncodeIsHead(r);
    HeadIsPlain(r);
    if r.ValueIs? {
      ValueIsRead(|r.value|);
      ValueRoundTrip(EncodeResponse(r), line, r.value, rest, MAX_RESPONSE_LINE_LEN, ResponseLine);
    } else {
      if r.Error? { ErrorIsRead(r.message); }
      assert EncodeResponse(r) == line + "\n";
      WholeRoundTrip(EncodeResponse(r), line, rest, Parsed(r), MAX_RESPONSE_LINE_LEN, ResponseLine);
    }
  }

  lemma LongValueIsLost(v: Value)
    requires |v| > MAX_VALUE_LEN
    ensures ResponseFrame(EncodeResponse(ValueIs(v))) != Took(Parsed(ValueIs(v)), |EncodeResponse(ValueIs(v))|)
  {
    var line, buf := HeadOf(ValueIs(v)), EncodeResponse(ValueIs(v));
    EncodeIsHead(ValueIs(v));
    ValueIsRead(|v|);
    DecimalIsPlain(|v|);
    PlainAfter("VALUE ", Decimal(|v|));
    LineAt(line, v + "\n");
    assert buf == line + "\n" + (v + "\n");
  }

  lemma BrokenMessageIsLost(m: string)
    requires !Free(m, '\n')
    ensures ResponseFrame(EncodeResponse(Error(m))) != Took(Parsed(Error(m)), |EncodeResponse(Error(m))|)
  {
    var buf := EncodeResponse(Error(m));
    var i :| 0 <= i < |m| && m[i] == '\n';
    assert buf[6 + i] == '\n' && 6 + i < |buf| - 1;
    forall l | "ERROR " <= l ensures ResponseLine(l).Whole? { ErrorLineIsWhole(l); }
    OneLineTaken("ERROR ", buf, MAX_RESPONSE_LINE_LEN, ResponseLine);
  }

  lemma CrMessageIsLost(m: string)
    requires Free(m, '\n') && m != "" && m[|m| - 1] == '\r'
    ensures ResponseFrame(EncodeResponse(Error(m))) == Took(Parsed(Error(m[..|m| - 1])), |EncodeResponse(Error(m))|)
  {
    var line, buf := "ERROR " + m, EncodeResponse(Error(m));
    assert buf == line + "\n";
    IndexOfIs(buf, '\n', |line|);
    assert buf[..|line|] == line && StripCr(line) == "ERROR " + m[..|m| - 1];
    ErrorIsRead(m[..|m| - 1]);
  }

  /** Read from the wire, a value is at most 1 MiB and a message is one line that lost its trailing CR. */
  lemma NotSendableIsLost(r: Response)
    requires !Sendable(r)
    ensures ResponseFrame(EncodeResponse(r)) != Took(Parsed(r), |EncodeResponse(r)|)
  {
    if r.ValueIs? {
      LongValueIsLost(r.value);
    } else if !Free(r.message, '\n') {
      BrokenMessageIsLost(r.message);
    } else {
      CrMessageIsLost(r.message);
    }
  }

  lemma OneLineTaken<T>(p: string, buf: string, max: nat, lineOf: string -> Line<T>)
    requires p <= buf && Free(p, '\n') && Free(p, '\r') && IndexOf(buf, '\n') < |buf|
    requires forall line :: p <= line ==> lineOf(line).Whole?
    ensures var f := FrameBy(buf, max, lineOf); f.Took? && f.n == IndexOf(buf, '\n') + 1
  {
    var end := IndexOf(buf, '\n');
    assert forall i :: 0 <= i < |p| ==> buf[i] == p[i];
    assert p <= buf[..end];
  }

  lemma ErrorLineIsWhole(line: string)
    requires "ERROR " <= line
    ensures ResponseLine(line).Whole?
  {
  }

  /** A response is read back exactly if and only if it is sendable. */
  lemma ResponseRoundTrip(r: Response)
    ensures ResponseFrame(EncodeResponse(r)) == Took(Parsed(r), |EncodeResponse(r)|) <==> Sendable(r)
  {
    if Sendable(r) {
      ResponseIsRead(r, "");
      assert EncodeResponse(r) + "" == EncodeResponse(r);
    } else {
      NotSendableIsLost(r);
    }
  }

  // ---------- Pipelines ----------

  function EncodeAll<T>(enc: T -> string, ms: seq<T>): string {
    if ms == [] then "" else enc(ms[0]) + EncodeAll(enc, ms[1..])
  }

  function AllParsed<T>(ms: seq<T>): seq<Item<T>> {
    if ms == [] then [] else [Parsed(ms[0])] + AllParsed(ms[1..])
  }

  /** `m` printed in front of `rest` is one short-lined item. */
  predicate Prints<T(==)>(f: Framer<T>, max: nat, enc: T -> string, m: T, rest: string) {
    f(enc(m) + rest) == Took(Parsed(m), |enc(m)|) && IndexOf(enc(m) + rest, '\n') <= max
  }

  lemma {:induction false} PipelineDrains<T(!new)>(f: Framer<T>, max: nat, enc: T -> string, ms: seq<T>)
    requires Framing(f, max)
    requires forall i, rest :: 0 <= i < |ms| ==> Prints(f, max, enc, ms[i], rest)
    ensures ShortLines(f, max, EncodeAll(enc, ms))
    ensures Drain(f, max, EncodeAll(enc, ms)) == Drained(AllParsed(ms), "")
    decreases |ms|
  {
    if ms == [] {
      assert FramesWell(f, max, "");
    } else {
      var rest, buf := EncodeAll(enc, ms[1..]), EncodeAll(enc, ms);
      assert Prints(f, max, enc, ms[0], rest) && FramesWell(f, max, buf);
      assert buf[|enc(ms[0])|..] == rest;
      PipelineDrains(f, max, enc, ms[1..]);
    }
  }

  /** Any pipeline of valid requests, cut up in any way, is parsed to exactly those requests with nothing left. */
  lemma PipelinedRequests(rs: seq<Request>, chunks: seq<string>)
    requires (forall i :: 0 <= i < |rs| ==> ValidRequest(rs[i])) && Flatten(chunks) == EncodeAll(EncodeRequest, rs)
    ensures FeedRequests(chunks) == Drained(AllParsed(rs), "")
  {
    ParsersFrameWell();
    forall i, rest | 0 <= i < |rs| ensures Prints(RequestFrame, MAX_COMMAND_LINE_LEN, EncodeRequest, rs[i], rest) {
      RequestPrints(rs[i], rest);
    }
    PipelineDrains(RequestFrame, MAX_COMMAND_LINE_LEN, EncodeRequest, rs);
    AnySplitIsWhole(RequestFrame, MAX_COMMAND_LINE_LEN, EncodeAll(EncodeRequest, rs), chunks);
  }

  lemma RequestPrints(r: Request, rest: string)
    requires ValidRequest(r)
    ensures Prints(RequestFrame, MAX_COMMAND_LINE_LEN, EncodeRequest, r, rest)
  {
    RequestRoundTrip(r, rest);
    ShortCommand(r, rest);
  }

  lemma ShortCommand(r: Request, rest: string)
    requires ValidRequest(r)
    ensures IndexOf(EncodeRequest(r) + rest, '\n') <= MAX_COMMAND_LINE_LEN
  {
    EncodeIsCommand(r);
    CommandIsPlain(r);
    LineFirst(EncodeRequest(r), CommandOf(r), PayloadOf(r), rest);
  }

  lemma LineFirst(msg: string, line: string, payload: string, rest: string)
    requires Free(line, '\n') && msg == line + "\n" + payload
    ensures IndexOf(msg + rest, '\n') == |line|
  {
    assert msg + rest == line + "\n" + (payload + rest);
    IndexOfIs(msg + rest, '\n', |line|);
  }

  lemma ResponsePrints(r: Response, rest: string)
    requires Sendable(r) && |HeadOf(r)| <= MAX_RESPONSE_LINE_LEN
    ensures Prints(ResponseFrame, MAX_RESPONSE_LINE_LEN, EncodeResponse, r, rest)
  {
    ResponseIsRead(r, rest);
    EncodeIsHead(r);
    HeadIsPlain(r);
    LineFirst(EncodeResponse(r), HeadOf(r), if r.ValueIs? then r.value + "\n" else "", rest);
  }

  /** Any stream of sendable responses with short first lines, cut up in any way, is read back exactly. */
  lemma PipelinedResponses(rs: seq<Response>, chunks: seq<string>)
    requires forall i :: 0 <= i < |rs| ==> Sendable(rs[i]) && |HeadOf(rs[i])| <= MAX_RESPONSE_LINE_LEN
    requires Flatten(chunks) == EncodeAll(EncodeResponse, rs)
    ensures FeedResponses(chunks) == Drained(AllParsed(rs), "")
  {
    ParsersFrameWell();
    forall i, rest | 0 <= i < |rs| ensures Prints(ResponseFrame, MAX_RESPONSE_LINE_LEN, EncodeResponse, rs[i], rest) {
      ResponsePrints(rs[i], rest);
    }
    PipelineDrains(ResponseFrame, MAX_RESPONSE_LINE_LEN, EncodeResponse, rs);
    AnySplitIsWhole(ResponseFrame, MAX_RESPONSE_LINE_LEN, EncodeAll(EncodeResponse, rs), chunks);
  }
}
