/** The two incremental parsers and the client's blocking exchange, as they change their buffers. */
module Parsers {
  import opened KvSpec
  import opened Wire
  import opened Chunking
  import opened RoundTrip
  import opened Grammar

  datatype ParseStatus = NeedMore | Complete | Failed

  lemma Regroup(a: seq<string>, x: string, b: seq<string>)
    ensures a + ([x] + b) == (a + [x]) + b
  {
  }

  lemma TokensFrom(line: string, start: nat, pos: nat)
    requires start <= |line| && pos == start + IndexOf(line[start..], ' ') < |line|
    ensures Tokens(line[start..]) == [line[start..pos]] + Tokens(line[pos + 1..])
  {
    assert line[start..][..pos - start] == line[start..pos];
    assert line[start..][pos - start + 1..] == line[pos + 1..];
  }

  lemma LastWord(line: string, start: nat)
    requires start <= |line| && start + IndexOf(line[start..], ' ') == |line|
    ensures Tokens(line[start..]) == [line[start..]]
  {
  }

  lemma FromTheStart(line: string)
    ensures line[0..] == line && [] + Tokens(line) == Tokens(line)
  {
  }

  /** `split_spaces`: a cursor moves from space to space. */
  method SplitSpaces(line: string) returns (tokens: seq<string>)
    ensures tokens == Tokens(line)
  {
    tokens := [];
    var start := 0;
    ghost var all, ahead := Tokens(line), Tokens(line);
    FromTheStart(line);
    while true
      invariant 0 <= start <= |line| && ahead == Tokens(line[start..]) && tokens + ahead == all
      decreases |line| - start
    {
      var pos := start + IndexOf(line[start..], ' ');
      if pos == |line| {
        LastWord(line, start);
        return tokens + [line[start..]];
      }
      TokensFrom(line, start, pos);
      ahead := Tokens(line[pos + 1..]);
      Regroup(tokens, line[start..pos], ahead);
      tokens := tokens + [line[start..pos]];
      start := pos + 1;
    }
  }

  /** `parse_length`: check every character, then convert. */
  method ReadLength(s: string) returns (n: Option<nat>)
    ensures n == ParseLength(s)
  {
    if s == "" || |s| > 10 { return None; }
    for i := 0 to |s|
      invariant forall j :: 0 <= j < i ==> IsDigit(s[j])
    {
      if !IsDigit(s[i]) { return None; }
    }
    var v := 0;
    for i := 0 to |s|
      invariant v == NumberOf(s[..i])
    {
      assert s[..i + 1][..i] == s[..i];
      v := 10 * v + DigitValue(s[i]);
    }
    assert s[..|s|] == s;
    if v > MAX_VALUE_LEN { return None; }
    return Some(v);
  }

  /** What one call may do to a parser's buffer, given how the buffer frames. */
  predicate Called<T(==)>(f: Frame<Item<T>>, overlong: string, before: string, error: string,
                          status: ParseStatus, msg: Option<T>, after: string, error': string) {
    match f
    case Incomplete => status == NeedMore && msg == None && after == before && error' == error
    case Overlong => status == Failed && msg == None && after == before && error' == overlong
    case Took(Parsed(m), n) => n <= |before| && status == Complete && msg == Some(m) && after == before[n..] && error' == error
    case Took(Bad(e), n) => n <= |before| && status == Failed && msg == None && after == before[n..] && error' == e
  }

  /** Which frame a call's outcome stands for, if it dropped `n` bytes. */
  function FrameOf<T>(status: ParseStatus, msg: Option<T>, error': string, n: nat): Frame<Item<T>> {
    match status
    case Complete => if msg.Some? then Took(Parsed(msg.value), n) else Incomplete
    case NeedMore => Incomplete
    case Failed => if n > 0 then Took(Bad(error'), n) else Overlong
  }

  /** What a call has left behind, apart from what it read: a suffix of the buffer, and an error message when it
      failed. */
  predicate CallLeaves<T>(overlong: string, before: string, error: string, status: ParseStatus, msg: Option<T>,
                          after: string, error': string) {
    && |after| <= |before| && after == before[|before| - |after|..]
    && (status == Complete <==> msg.Some?) && (status == NeedMore ==> after == before)
    && (status != Failed ==> error' == error) && (status == Failed && after == before ==> error' == overlong)
  }

  /** What a call of the request parser has done, said over the bytes it dropped from the buffer. */
  ghost predicate RequestCall(before: string, error: string, status: ParseStatus, req: Option<Request>, after: string,
                              error': string) {
    && CallLeaves("command line too long", before, error, status, req, after, error')
    && ReadsRequest(before, FrameOf(status, req, error', |before| - |after|))
  }

  lemma CalledFrame<T>(f: Frame<Item<T>>, overlong: string, before: string, error: string,
                       status: ParseStatus, msg: Option<T>, after: string, error': string)
    requires Called(f, overlong, before, error, status, msg, after, error') && (f.Took? ==> f.n > 0)
    ensures CallLeaves(overlong, before, error, status, msg, after, error')
    ensures f == FrameOf(status, msg, error', |before| - |after|)
  {
  }

  lemma RequestCallMeans(before: string, error: string, status: ParseStatus, req: Option<Request>, after: string, error': string)
    requires Called(RequestFrame(before), "command line too long", before, error, status, req, after, error')
    ensures RequestCall(before, error, status, req, after, error')
  {
    CalledFrame(RequestFrame(before), "command line too long", before, error, status, req, after, error');
    RequestGrammar(before, FrameOf(status, req, error', |before| - |after|));
  }

  /** The same of the response parser. */
  ghost predicate ResponseCall(before: string, error: string, status: ParseStatus, resp: Option<Response>, after: string,
                               error': string) {
    && CallLeaves("response line too long", before, error, status, resp, after, error')
    && ReadsResponse(before, FrameOf(status, resp, error', |before| - |after|))
  }

  lemma ResponseCallMeans(before: string, error: string, status: ParseStatus, resp: Option<Response>, after: string,
                          error': string)
    requires Called(ResponseFrame(before), "response line too long", before, error, status, resp, after, error')
    ensures ResponseCall(before, error, status, resp, after, error')
  {
    CalledFrame(ResponseFrame(before), "response line too long", before, error, status, resp, after, error');
    ResponseGrammar(before, FrameOf(status, resp, error', |before| - |after|));
  }

  lemma SetLine(tokens: seq<string>)
    requires |tokens| > 0 && tokens[0] == "SET"
    ensures var l := Command(tokens);
            if |tokens| != 3 || !ValidKey(tokens[1]) || ParseLength(tokens[2]).None?
            then l == Whole(Bad("malformed SET request"))
            else l.NeedsValue? && l.len == ParseLength(tokens[2]).value && forall v :: l.make(v) == Set(tokens[1], v)
  {
  }

  lemma ValueLine(line: string)
    requires "VALUE " <= line
    ensures var l := ResponseLine(line);
            if ParseLength(line[6..]).None? then l == Whole(Bad("malformed VALUE response"))
            else l.NeedsValue? && l.len == ParseLength(line[6..]).value && forall v :: l.make(v) == ValueIs(v)
  {
    assert line[0] == 'V';
  }

  class IncrementalParser {
    var buffer: string
    var errorMessage: string

    constructor ()
      ensures buffer == "" && errorMessage == ""
    {
      buffer := "";
      errorMessage := "";
    }

    method Feed(data: string)
      modifies this
      ensures buffer == old(buffer) + data && errorMessage == old(errorMessage)
    {
      buffer := buffer + data;
    }

    /** Drop the line and report an error. */
    method Reject(message: string, n: nat)
      requires n <= |buffer|
      modifies this
      ensures buffer == old(buffer)[n..] && errorMessage == message
    {
      errorMessage := message;
      buffer := buffer[n..];
    }

    method TryParseRequest() returns (status: ParseStatus, req: Option<Request>)
      modifies this
      ensures Called(RequestFrame(old(buffer)), "command line too long", old(buffer), old(errorMessage),
                     status, req, buffer, errorMessage)
      ensures RequestCall(old(buffer), old(errorMessage), status, req, buffer, errorMessage)
    {
      ghost var before, error := buffer, errorMessage;
      var lineEnd := IndexOf(buffer, '\n');
      if lineEnd < |buffer| {
        var tokens := SplitSpaces(StripCr(buffer[..lineEnd]));
        status, req := ParseCommand(tokens, lineEnd);
      } else if |buffer| > MAX_COMMAND_LINE_LEN {
        errorMessage := "command line too long";
        status, req := Failed, None;
      } else {
        status, req := NeedMore, None;
      }
      RequestCallMeans(before, error, status, req, buffer, errorMessage);
    }

    method ParseCommand(tokens: seq<string>, lineEnd: nat) returns (status: ParseStatus, req: Option<Request>)
      requires lineEnd < |buffer| && |tokens| > 0
      modifies this
      ensures Called(LineFrame(old(buffer), lineEnd, Command(tokens)), "command line too long", old(buffer), old(errorMessage),
                     status, req, buffer, errorMessage)
    {
      var cmd := tokens[0];
      if cmd == "" {
        Reject("empty command", lineEnd + 1);
        return Failed, None;
      }
      if cmd == "GET" || cmd == "DELETE" {
        if |tokens| != 2 || !ValidKey(tokens[1]) {
          Reject("malformed " + cmd + " request", lineEnd + 1);
          return Failed, None;
        }
        buffer := buffer[lineEnd + 1..];
        return Complete, Some(if cmd == "GET" then Get(tokens[1]) else Delete(tokens[1]));
      }
      if cmd == "PING" {
        if |tokens| != 1 {
          Reject("malformed PING request", lineEnd + 1);
          return Failed, None;
        }
        buffer := buffer[lineEnd + 1..];
        return Complete, Some(Ping);
      }
      if cmd == "SET" {
        status, req := ParseSet(tokens, lineEnd);
        return;
      }
      Reject("unknown command: " + cmd, lineEnd + 1);
      return Failed, None;
    }

    method ParseSet(tokens: seq<string>, lineEnd: nat) returns (status: ParseStatus, req: Option<Request>)
      requires lineEnd < |buffer| && |tokens| > 0 && tokens[0] == "SET"
      modifies this
      ensures Called(LineFrame(old(buffer), lineEnd, Command(tokens)), "command line too long", old(buffer), old(errorMessage),
                     status, req, buffer, errorMessage)
    {
      SetLine(tokens);
      var length := None;
      if |tokens| == 3 {
        length := ReadLength(tokens[2]);
      }
      if |tokens| != 3 || !ValidKey(tokens[1]) || length.None? {
        Reject("malformed SET request", lineEnd + 1);
        return Failed, None;
      }
      var valueStart := lineEnd + 1;
      var needed := valueStart + length.value + 1;
      if |buffer| < needed {
        return NeedMore, None;
      }
      if buffer[valueStart + length.value] != '\n' {
        Reject("expected newline after value", needed);
        return Failed, None;
      }
      req := Some(Set(tokens[1], buffer[valueStart..valueStart + length.value]));
      buffer := buffer[needed..];
      return Complete, req;
    }
  }

  class ResponseParser {
    var buffer: string
    var errorMessage: string

    constructor ()
      ensures buffer == "" && errorMessage == ""
    {
      buffer := "";
      errorMessage := "";
    }

    method Feed(data: string)
      modifies this
      ensures buffer == old(buffer) + data && errorMessage == old(errorMessage)
    {
      buffer := buffer + data;
    }

    method TryParseResponse() returns (status: ParseStatus, resp: Option<Response>)
      modifies this
      ensures Called(ResponseFrame(old(buffer)), "response line too long", old(buffer), old(errorMessage),
                     status, resp, buffer, errorMessage)
      ensures ResponseCall(old(buffer), old(errorMessage), status, resp, buffer, errorMessage)
    {
      ghost var before, error := buffer, errorMessage;
      var lineEnd := IndexOf(buffer, '\n');
      if lineEnd < |buffer| {
        status, resp := ParseReply(StripCr(buffer[..lineEnd]), lineEnd);
      } else if |buffer| > MAX_RESPONSE_LINE_LEN {
        errorMessage := "response line too long";
        status, resp := Failed, None;
      } else {
        status, resp := NeedMore, None;
      }
      ResponseCallMeans(before, error, status, resp, buffer, errorMessage);
    }

    method ParseReply(line: string, lineEnd: nat) returns (status: ParseStatus, resp: Option<Response>)
      requires lineEnd < |buffer|
      modifies this
      ensures Called(LineFrame(old(buffer), lineEnd, ResponseLine(line)), "response line too long", old(buffer),
                     old(errorMessage), status, resp, buffer, errorMessage)
    {
      if line == "OK" || line == "DELETED" || line == "NOT_FOUND" || line == "PONG" {
        buffer := buffer[lineEnd + 1..];
        return Complete, Some(if line == "OK" then Ok else if line == "DELETED" then Deleted
                              else if line == "NOT_FOUND" then NotFound else Pong);
      }
      if line == "ERROR" || "ERROR " <= line {
        buffer := buffer[lineEnd + 1..];
        return Complete, Some(Error(if |line| > 6 then line[6..] else ""));
      }
      if "VALUE " <= line {
        status, resp := ParseValue(line, lineEnd);
        return;
      }
      errorMessage := "unknown response: " + line;
      buffer := buffer[lineEnd + 1..];
      return Failed, None;
    }

    method ParseValue(line: string, lineEnd: nat) returns (status: ParseStatus, resp: Option<Response>)
      requires lineEnd < |buffer| && "VALUE " <= line
      modifies this
      ensures Called(LineFrame(old(buffer), lineEnd, ResponseLine(line)), "response line too long", old(buffer),
                     old(errorMessage), status, resp, buffer, errorMessage)
    {
      ValueLine(line);
      var length := ReadLength(line[6..]);
      if length.None? {
        errorMessage := "malformed VALUE response";
        buffer := buffer[lineEnd + 1..];
        return Failed, None;
      }
      var valueStart := lineEnd + 1;
      var needed := valueStart + length.value + 1;
      if |buffer| < needed {
        return NeedMore, None;
      }
      if buffer[valueStart + length.value] != '\n' {
        errorMessage := "expected newline after value";
        buffer := buffer[needed..];
        return Failed, None;
      }
      resp := Some(ValueIs(buffer[valueStart..valueStart + length.value]));
      buffer := buffer[needed..];
      return Complete, resp;
    }
  }

  // ---------- The client's side of one exchange ----------

  /** How `send_request` ends: with a response, having performed `used` reads and dropping the bytes `left` with its
      parser; or with an exception. */
  datatype Exchange = Got(resp: Response, left: string, used: nat) | Threw(message: string)

  /** Parse, and when more is needed read the next chunk; no chunk left means the peer closed the connection. */
  function Awaited(f: Framer<Response>, buffer: string, chunks: seq<string>, used: nat): Exchange
    decreases |chunks|
  {
    match f(buffer)
    case Took(Parsed(r), n) => Got(r, if n <= |buffer| then buffer[n..] else "", used)
    case Took(Bad(e), _) => Threw("protocol error: " + e)
    case Overlong => Threw("protocol error: " + "response line too long")
    case Incomplete =>
      if chunks == [] then Threw("connection closed while waiting for response")
      else Awaited(f, buffer + chunks[0], chunks[1..], used + 1)
  }

  /** The bytes at hand after `i` reads. */
  function AtHand(buffer: string, chunks: seq<string>, i: nat): string
    requires i <= |chunks|
  {
    buffer + Flatten(chunks[..i])
  }

  /** The wait ended with `e` after `i` reads: the bytes at hand before were no message yet, and now they begin with a
      response, or are refused, or are too long, or there is nothing more to read. */
  predicate EndsAt(f: Framer<Response>, buffer: string, chunks: seq<string>, used: nat, i: nat, e: Exchange)
    requires i <= |chunks|
  {
    && (forall j :: 0 <= j < i ==> f(AtHand(buffer, chunks, j)).Incomplete?)
    && match f(AtHand(buffer, chunks, i))
       case Took(Parsed(r), n) => n <= |AtHand(buffer, chunks, i)| ==> e == Got(r, AtHand(buffer, chunks, i)[n..], used + i)
       case Took(Bad(m), _) => e == Threw("protocol error: " + m)
       case Overlong => e == Threw("protocol error: " + "response line too long")
       case Incomplete => i == |chunks| && e == Threw("connection closed while waiting for response")
  }

  lemma AtHandLater(buffer: string, chunks: seq<string>, i: nat)
    requires 0 < i <= |chunks|
    ensures AtHand(buffer, chunks, i) == AtHand(buffer + chunks[0], chunks[1..], i - 1)
  {
    assert chunks[..i][1..] == chunks[1..][..i - 1];
    assert buffer + (chunks[0] + Flatten(chunks[1..][..i - 1])) == buffer + chunks[0] + Flatten(chunks[1..][..i - 1]);
  }

  /** A wait ends at the first read that decides it, whatever that read decides. */
  lemma {:induction false} AwaitedEndsAt(f: Framer<Response>, buffer: string, chunks: seq<string>, used: nat) returns (i: nat)
    ensures i <= |chunks| && EndsAt(f, buffer, chunks, used, i, Awaited(f, buffer, chunks, used))
    decreases |chunks|
  {
    assert AtHand(buffer, chunks, 0) == buffer;
    if f(buffer).Incomplete? && chunks != [] {
      var j := AwaitedEndsAt(f, buffer + chunks[0], chunks[1..], used + 1);
      i := j + 1;
      forall k | 0 < k <= i ensures AtHand(buffer, chunks, k) == AtHand(buffer + chunks[0], chunks[1..], k - 1) {
        AtHandLater(buffer, chunks, k);
      }
    } else {
      i := 0;
    }
  }

  /** What a call that ends the wait means for it. */
  lemma AwaitedEnds(f: Framer<Response>, buffer: string, chunks: seq<string>, used: nat, error: string,
                    status: ParseStatus, resp: Option<Response>, after: string, error': string)
    requires Called(f(buffer), "response line too long", buffer, error, status, resp, after, error')
    requires status == NeedMore ==> chunks == []
    ensures Awaited(f, buffer, chunks, used) ==
            match status
            case Complete => Got(resp.value, after, used)
            case Failed => Threw("protocol error: " + error')
            case NeedMore => Threw("connection closed while waiting for response")
  {
  }

  lemma AwaitedMore(f: Framer<Response>, buffer: string, chunks: seq<string>, used: nat)
    requires f(buffer).Incomplete? && chunks != []
    ensures Awaited(f, buffer, chunks, used) == Awaited(f, buffer + chunks[0], chunks[1..], used + 1)
  {
  }

  /** The reading half of `send_request`; `chunks` is what successive reads deliver. */
  method AwaitResponse(chunks: seq<string>) returns (e: Exchange)
    ensures e == Awaited(ResponseFrame, "", chunks, 0)
  {
    var parser := new ResponseParser();
    var used := 0;
    while true
      invariant used <= |chunks|
      invariant Awaited(ResponseFrame, parser.buffer, chunks[used..], used) == Awaited(ResponseFrame, "", chunks, 0)
      decreases |chunks| - used
    {
      ghost var buffer, error := parser.buffer, parser.errorMessage;
      var status, resp := parser.TryParseResponse();
      if status == NeedMore && used < |chunks| {
        AwaitedMore(ResponseFrame, buffer, chunks[used..], used);
      } else {
        AwaitedEnds(ResponseFrame, buffer, chunks[used..], used, error, status, resp, parser.buffer, parser.errorMessage);
      }
      if status == Complete { return Got(resp.value, parser.buffer, used); }
      if status == Failed { return Threw("protocol error: " + parser.errorMessage); }
      if used == |chunks| { return Threw("connection closed while waiting for response"); }
      parser.Feed(chunks[used]);
      assert chunks[used..][1..] == chunks[used + 1..];
      used := used + 1;
    }
  }

  /** A proper prefix of a message is never taken for one, nor for an overlong line. */
  lemma PrefixIsIncomplete<T>(f: Framer<T>, max: nat, a: string, b: string)
    requires Framing(f, max) && b != ""
    requires f(a + b).Took? && f(a + b).n == |a + b| && IndexOf(a + b, '\n') <= max
    ensures f(a).Incomplete?
  {
    assert FramesWell(f, max, a) && IgnoresRest(f, a, b);
    if IndexOf(a, '\n') == |a| {
      NoLineFeed(a, b);
    }
  }

  lemma {:induction false} AwaitedExactly(f: Framer<Response>, max: nat, buffer: string, chunks: seq<string>, used: nat,
                                          r: Response)
    requires Framing(f, max) && forall i :: 0 <= i < |chunks| ==> chunks[i] != ""
    requires var e := buffer + Flatten(chunks); f(e) == Took(Parsed(r), |e|) && IndexOf(e, '\n') <= max
    ensures Awaited(f, buffer, chunks, used) == Got(r, "", used + |chunks|)
    decreases |chunks|
  {
    if chunks == [] {
      assert buffer + "" == buffer;
    } else {
      PrefixIsIncomplete(f, max, buffer, Flatten(chunks));
      assert buffer + Flatten(chunks) == (buffer + chunks[0]) + Flatten(chunks[1..]);
      AwaitedExactly(f, max, buffer + chunks[0], chunks[1..], used + 1, r);
    }
  }

  lemma AwaitedPrinted(f: Framer<Response>, max: nat, enc: Response -> string, r: Response, chunks: seq<string>)
    requires Framing(f, max) && Prints(f, max, enc, r, "")
    requires Flatten(chunks) == enc(r) && forall i :: 0 <= i < |chunks| ==> chunks[i] != ""
    ensures Awaited(f, "", chunks, 0) == Got(r, "", |chunks|)
  {
    assert enc(r) + "" == enc(r) == "" + Flatten(chunks);
    AwaitedExactly(f, max, "", chunks, 0, r);
  }

  /** With one request in flight: however the reply is cut up, `send_request` returns exactly it, having read all of it,
      and its parser ends empty; so a fresh parser per call loses nothing. */
  lemma OneInFlight(r: Response, chunks: seq<string>)
    requires Sendable(r) && |HeadOf(r)| <= MAX_RESPONSE_LINE_LEN
    requires Flatten(chunks) == EncodeResponse(r) && forall i :: 0 <= i < |chunks| ==> chunks[i] != ""
    ensures Awaited(ResponseFrame, "", chunks, 0) == Got(r, "", |chunks|)
  {
    ParsersFrameWell();
    ResponsePrints(r, "");
    AwaitedPrinted(ResponseFrame, MAX_RESPONSE_LINE_LEN, EncodeResponse, r, chunks);
  }
}
