/** What a client can read back of a connection's answers, whatever bytes it sent. */
module ReadBack {
  import opened KvSpec
  import opened Wire
  import opened Chunking
  import opened RoundTrip
  import opened Server

  /** The responses to the items, one after another. */
  function Replies(s: Store, items: seq<Item<Request>>): seq<Response>
    decreases |items|
  {
    if items == [] then [] else [Handle(s, items[0]).1] + Replies(Handle(s, items[0]).0, items[1..])
  }

  lemma {:induction false} RepliesAreSent(s: Store, items: seq<Item<Request>>)
    ensures HandleAll(s, items).1 == EncodeAll(EncodeResponse, Replies(s, items))
    decreases |items|
  {
    if items != [] {
      var s1, r := Handle(s, items[0]).0, Handle(s, items[0]).1;
      RepliesAreSent(s1, items[1..]);
      assert ([r] + Replies(s1, items[1..]))[1..] == Replies(s1, items[1..]);
    }
  }

  /** The command name of the first line ends in CR, apart from the CR that belongs to the line's end. */
  predicate CrCommand(buf: string) {
    EndsInCr(Tokens(StripCr(buf[..IndexOf(buf, '\n')]))[0])
  }

  /** No complete command of the stream has a name that ends in CR. */
  predicate PlainCommands(buf: string)
    decreases |buf|
  {
    RequestFrame(buf).Took? ==> !CrCommand(buf) && PlainCommands(buf[RequestFrame(buf).n..])
  }

  predicate Legible(r: Response) {
    Sendable(r) && |HeadOf(r)| <= MAX_RESPONSE_LINE_LEN
  }

  /** An error whose message ends in a CR, which the reader takes for a part of the line's end. */
  predicate Blurred(r: Response) {
    r.Error? && Free(r.message, '\n') && EndsInCr(r.message) && |HeadOf(r)| <= MAX_RESPONSE_LINE_LEN
  }

  // ---------- What is sent ----------

  /** A message that fits on a line and survives it. */
  predicate Plain(m: string) {
    Free(m, '\n') && !EndsInCr(m) && |m| <= 300
  }

  lemma FixedMessages()
    ensures Plain("empty command") && Plain("malformed PING request") && Plain("malformed SET request")
    ensures Plain("malformed GET request") && Plain("malformed DELETE request") && Plain("expected newline after value")
  {
  }

  lemma NamedMessage(name: string)
    requires Free(name, '\n') && 0 < |name| <= MAX_COMMAND_LINE_LEN
    ensures var m := "unknown command: " + name; Free(m, '\n') && |m| <= 300 && (EndsInCr(m) <==> EndsInCr(name))
  {
    var m := "unknown command: " + name;
    assert m[|m| - 1] == name[|name| - 1];
    assert forall i :: 17 <= i < |m| ==> m[i] == name[i - 17];
  }

  lemma KnownNames()
    ensures !EndsInCr("") && !EndsInCr("GET") && !EndsInCr("DELETE") && !EndsInCr("PING") && !EndsInCr("SET")
  {
  }

  lemma CommandErrors(ts: seq<string>)
    requires |ts| > 0 && Command(ts).Whole? && Command(ts).item.Bad?
    ensures var m := Command(ts).item.message;
            || (m == "unknown command: " + ts[0] && ts[0] != "")
            || (!EndsInCr(ts[0]) && Plain(m))
  {
    KnownNames();
    FixedMessages();
    assert "malformed " + "GET" + " request" == "malformed GET request";
    assert "malformed " + "DELETE" + " request" == "malformed DELETE request";
  }

  lemma KnownCommand(ts: seq<string>)
    requires |ts| > 0 && (Command(ts).Whole? ==> Command(ts).item.Parsed?)
    ensures !EndsInCr(ts[0])
  {
    KnownNames();
  }

  lemma FirstToken(line: string)
    ensures Tokens(line)[0] <= line
  {
  }

  lemma ErrorReply(m: string)
    requires Free(m, '\n') && |m| <= 300
    ensures if EndsInCr(m) then Blurred(Error(m)) else Legible(Error(m))
  {
  }

  lemma BadCommand(line: string)
    requires Free(line, '\n') && |line| <= MAX_COMMAND_LINE_LEN && CommandLine(line).Whole? && CommandLine(line).item.Bad?
    ensures var e := Error(CommandLine(line).item.message); if EndsInCr(Tokens(line)[0]) then Blurred(e) else Legible(e)
  {
    FirstToken(line);
    var name := Tokens(line)[0];
    assert forall i :: 0 <= i < |name| ==> name[i] == line[i];
    CommandErrors(Tokens(line));
    if name != "" { NamedMessage(name); }
    ErrorReply(CommandLine(line).item.message);
  }

  /** What a framed item is, in terms of its command line. */
  lemma FramedItem<T>(buf: string, max: nat, lineOf: string -> Line<T>)
    requires FrameBy(buf, max, lineOf).Took?
    ensures var item, l := FrameBy(buf, max, lineOf).item, lineOf(StripCr(buf[..IndexOf(buf, '\n')]));
            if l.Whole? then item == l.item else item.Parsed? || item == Bad("expected newline after value")
  {
  }

  lemma LineOf(buf: string)
    ensures var line := StripCr(buf[..IndexOf(buf, '\n')]); Free(line, '\n') && |line| <= IndexOf(buf, '\n')
  {
  }

  /** A command whose name ends in CR is answered with a blurred error; every other one legibly. */
  lemma ItemReply(s: Store, buf: string)
    requires Bounded(s) && RequestFrame(buf).Took? && IndexOf(buf, '\n') <= MAX_COMMAND_LINE_LEN
    ensures var (s', r) := Handle(s, RequestFrame(buf).item);
            Bounded(s') && if CrCommand(buf) then Blurred(r) else Legible(r)
  {
    var line, item := StripCr(buf[..IndexOf(buf, '\n')]), RequestFrame(buf).item;
    LineOf(buf);
    FramedItem(buf, MAX_COMMAND_LINE_LEN, CommandLine);
    if CommandLine(line).Whole? && CommandLine(line).item.Bad? {
      BadCommand(line);
    } else {
      KnownCommand(Tokens(line));
      if item.Parsed? {
        AcceptedIsValid(buf);
        ValidIsLegible(s, item.msg);
      } else {
        FixedMessages();
        ErrorReply(item.message);
      }
    }
  }

  lemma ValidIsLegible(s: Store, r: Request)
    requires Bounded(s) && ValidRequest(r)
    ensures Bounded(Exec(s, r).0) && Legible(Exec(s, r).1)
  {
    HandledIsSendable(s, r);
    if Exec(s, r).1.ValueIs? { LengthRoundTrip(|Exec(s, r).1.value|); }
  }

  predicate AllLegible(rs: seq<Response>) {
    forall i :: 0 <= i < |rs| ==> Legible(rs[i])
  }

  predicate ShortReplies(rs: seq<Response>) {
    forall i :: 0 <= i < |rs| ==> Legible(rs[i]) || Blurred(rs[i])
  }

  lemma FirstCommand(buf: string)
    requires CommandLinesFit(buf)
    ensures var f := RequestFrame(buf);
            if f.Took? then
              && f.n <= |buf| && IndexOf(buf, '\n') <= MAX_COMMAND_LINE_LEN && CommandLinesFit(buf[f.n..])
              && DrainRequests(buf) == Prepend([f.item], DrainRequests(buf[f.n..]))
            else DrainRequests(buf) == Drained([], buf)
  {
    ParsersFrameWell();
    assert FramesWell(RequestFrame, MAX_COMMAND_LINE_LEN, buf);
  }

  lemma {:induction false} StreamReplies(s: Store, buf: string)
    requires Bounded(s) && CommandLinesFit(buf)
    ensures DrainRequests(buf).Drained?
    ensures var rs := Replies(s, DrainRequests(buf).outs); ShortReplies(rs) && (AllLegible(rs) <==> PlainCommands(buf))
    decreases |buf|
  {
    FirstCommand(buf);
    var f := RequestFrame(buf);
    if f.Took? {
      ItemReply(s, buf);
      var (s', r) := Handle(s, f.item);
      StreamReplies(s', buf[f.n..]);
      var rest := DrainRequests(buf[f.n..]).outs;
      FirstReply(s, f.item, rest);
      OneReplyMore(r, Replies(s', rest));
    }
  }

  lemma FirstReply(s: Store, item: Item<Request>, rest: seq<Item<Request>>)
    ensures Replies(s, [item] + rest) == [Handle(s, item).1] + Replies(Handle(s, item).0, rest)
  {
    assert ([item] + rest)[1..] == rest;
  }

  lemma OneReplyMore(r: Response, rs: seq<Response>)
    ensures AllLegible([r] + rs) <==> Legible(r) && AllLegible(rs)
    ensures ShortReplies([r] + rs) <==> (Legible(r) || Blurred(r)) && ShortReplies(rs)
  {
    assert ([r] + rs)[0] == r && forall i :: 0 <= i < |rs| ==> ([r] + rs)[i + 1] == rs[i];
  }

  // ---------- What is read ----------

  /** The reader takes a reply and nothing behind it, and gets it right exactly when it is legible. */
  predicate Takes(f: Framer<Response>, r: Response, rest: string) {
    var t := f(EncodeResponse(r) + rest);
    && t.Took? && t.n == |EncodeResponse(r)| && (t.item == Parsed(r) <==> Legible(r))
    && IndexOf(EncodeResponse(r) + rest, '\n') <= MAX_RESPONSE_LINE_LEN
  }

  lemma ReplyIsTaken(r: Response, rest: string)
    requires Legible(r) || Blurred(r)
    ensures Takes(ResponseFrame, r, rest)
  {
    if Legible(r) {
      ResponsePrints(r, rest);
    } else {
      var line, m := HeadOf(r), r.message[..|r.message| - 1];
      var buf := EncodeResponse(r) + rest;
      assert buf == line + "\n" + rest && Free(line, '\n');
      IndexOfIs(buf, '\n', |line|);
      assert buf[..|line|] == line && StripCr(line) == "ERROR " + m;
      ErrorIsRead(m);
    }
  }

  lemma SameOutputs(r: Response, item: Item<Response>, d: Drained<Response>, rs: seq<Response>)
    requires rs != [] && rs[0] == r
    ensures Prepend([item], d) == Drained(AllParsed(rs), "") <==> item == Parsed(r) && d == Drained(AllParsed(rs[1..]), "")
  {
    var p := Prepend([item], d);
    assert p.outs[0] == item && p.outs[1..] == d.outs;
    assert AllParsed(rs)[0] == Parsed(r) && AllParsed(rs)[1..] == AllParsed(rs[1..]);
  }

  lemma {:induction false} ReadBackIff(f: Framer<Response>, max: nat, rs: seq<Response>)
    requires Framing(f, max) && max == MAX_RESPONSE_LINE_LEN && forall i, rest :: 0 <= i < |rs| ==> Takes(f, rs[i], rest)
    ensures var sent := EncodeAll(EncodeResponse, rs);
            ShortLines(f, max, sent) && (Drain(f, max, sent) == Drained(AllParsed(rs), "") <==> AllLegible(rs))
    decreases |rs|
  {
    var sent := EncodeAll(EncodeResponse, rs);
    assert FramesWell(f, max, sent);
    if rs != [] {
      var rest := EncodeAll(EncodeResponse, rs[1..]);
      assert Takes(f, rs[0], rest);
      assert sent[|EncodeResponse(rs[0])|..] == rest && rs == [rs[0]] + rs[1..];
      OneReplyMore(rs[0], rs[1..]);
      ReadBackIff(f, max, rs[1..]);
      SameOutputs(rs[0], f(sent).item, Drain(f, max, rest), rs);
    }
  }

  lemma AnswerIsRead(rs: seq<Response>, replies: seq<string>)
    requires ShortReplies(rs) && Flatten(replies) == EncodeAll(EncodeResponse, rs)
    ensures FeedResponses(replies) == Drained(AllParsed(rs), "") <==> AllLegible(rs)
  {
    ParsersFrameWell();
    forall i, rest | 0 <= i < |rs| ensures Takes(ResponseFrame, rs[i], rest) {
      ReplyIsTaken(rs[i], rest);
    }
    ReadBackIff(ResponseFrame, MAX_RESPONSE_LINE_LEN, rs);
    AnySplitIsWhole(ResponseFrame, MAX_RESPONSE_LINE_LEN, EncodeAll(EncodeResponse, rs), replies);
  }

  // ---------- The whole connection ----------

  /** Whatever bytes a client sends in lines that fit, cut up in any way, it is sent one reply per item; and however the
      network cuts up the answer, the client reads exactly those replies if and only if no command name it sent ends in
      CR. */
  lemma AnswersReadBackIff(s: Store, chunks: seq<string>, replies: seq<string>)
    requires Bounded(s) && CommandLinesFit(Flatten(chunks)) && Flatten(replies) == Server.Serve(s, chunks).sent
    ensures var rs := Replies(s, DrainRequests(Flatten(chunks)).outs);
            && Server.Serve(s, chunks).sent == EncodeAll(EncodeResponse, rs)
            && (FeedResponses(replies) == Drained(AllParsed(rs), "") <==> PlainCommands(Flatten(chunks)))
  {
    var stream := Flatten(chunks);
    ParsersFrameWell();
    StreamReplies(s, stream);
    var outs := DrainRequests(stream).outs;
    var rs := Replies(s, outs);
    LinesFitParts(RequestFrame, MAX_COMMAND_LINE_LEN, stream);
    AnySplitIsWhole(RequestFrame, MAX_COMMAND_LINE_LEN, stream, chunks);
    ReadsAreOneFeed(RequestFrame, MAX_COMMAND_LINE_LEN, Session(s, "", "", false), chunks);
    RepliesAreSent(s, outs);
    assert "" + EncodeAll(EncodeResponse, rs) == EncodeAll(EncodeResponse, rs);
    AnswerIsRead(rs, replies);
  }

  lemma FedOnce<T>(f: Framer<T>, max: nat, buf: string, item: Item<T>)
    requires Framing(f, max) && f(buf) == Took(item, |buf|)
    ensures FeedAll(f, max, Drained([], ""), [buf]) == Drained([item], "")
  {
    assert FramesWell(f, max, "") && FramesWell(f, max, buf);
    assert buf[|buf|..] == "" && "" + buf == buf && [buf][1..] == [];
    assert Drain(f, max, "") == Drained([], "");
    assert [item] + [] == [item];
    assert Drain(f, max, buf) == Drained([item], "");
  }

  lemma DoubleCrFrame(word: string)
    requires word != "" && Free(word, '\n') && Free(word, ' ')
    ensures RequestFrame(word + "\r\r\n") == Took(Bad("unknown command: " + (word + "\r")), |word| + 3)
    ensures CrCommand(word + "\r\r\n")
  {
    var buf, line := word + "\r\r\n", word + "\r";
    assert buf[..|word| + 2] == word + "\r\r";
    IndexOfIs(buf, '\n', |word| + 2);
    assert StripCr(word + "\r\r") == line;
    assert Free(line, ' ') && EndsInCr(line);
    assert Tokens(line) == [line];
    KnownNames();
  }

  lemma MessageWithCr(word: string)
    requires Free(word, '\n')
    ensures "unknown command: " + (word + "\r") == "unknown command: " + word + "\r"
    ensures Free("unknown command: " + word, '\n')
  {
    var m := "unknown command: " + word;
    assert forall i :: 17 <= i < |m| ==> m[i] == word[i - 17];
  }

  lemma NotPlain(buf: string)
    requires RequestFrame(buf).Took? && CrCommand(buf)
    ensures !PlainCommands(buf)
  {
  }

  /** The family that fails: a word, two CRs and an LF.  The server names the word with one CR in its error, and the
      client reads the name without it. */
  lemma DoubleCrIsBlurred(s: Store, word: string, buf: string, m: string)
    requires word != "" && Free(word, '\n') && Free(word, ' ') && buf == word + "\r\r\n" && m == "unknown command: " + word
    ensures Server.Serve(s, [buf]).sent == EncodeResponse(Error(m + "\r"))
    ensures FeedResponses([EncodeResponse(Error(m + "\r"))]) == Drained([Parsed(Error(m))], "")
    ensures !PlainCommands(buf)
  {
    DoubleCrFrame(word);
    MessageWithCr(word);
    ServedOnce(s, buf, m + "\r");
    BlurredOnce(m);
    NotPlain(buf);
  }

  lemma ServedOnce(s: Store, buf: string, m: string)
    requires RequestFrame(buf) == Took(Bad(m), |buf|)
    ensures Server.Serve(s, [buf]).sent == EncodeResponse(Error(m))
  {
    ParsersFrameWell();
    FedOnce(RequestFrame, MAX_COMMAND_LINE_LEN, buf, Bad(m));
    ReadsAreOneFeed(RequestFrame, MAX_COMMAND_LINE_LEN, Session(s, "", "", false), [buf]);
    AnsweredOnce(s, m);
  }

  lemma BlurredOnce(m: string)
    requires Free(m, '\n')
    ensures FeedResponses([EncodeResponse(Error(m + "\r"))]) == Drained([Parsed(Error(m))], "")
  {
    ParsersFrameWell();
    CrMessageIsLost(m + "\r");
    assert (m + "\r")[..|m|] == m;
    FedOnce(ResponseFrame, MAX_RESPONSE_LINE_LEN, EncodeResponse(Error(m + "\r")), Parsed(Error(m)));
  }

  lemma AnsweredOnce(s: Store, m: string)
    ensures HandleAll(s, [Bad(m)]).1 == EncodeResponse(Error(m)) == "" + EncodeResponse(Error(m))
  {
    var items: seq<Item<Request>> := [Bad(m)];
    assert items[1..] == [];
    assert EncodeResponse(Error(m)) + "" == EncodeResponse(Error(m));
  }
}
