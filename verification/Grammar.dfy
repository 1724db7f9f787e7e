/** The protocol's grammar over bytes: exactly which bytes are read as which message, and what becomes of all others. */
module Grammar {
  import opened KvSpec
  import opened Wire
  import opened RoundTrip

  // ---------- Lines ----------

  predicate LineEnd(e: string) {
    e == "\n" || e == "\r\n"
  }

  /** `buf` starts with the line `body` and its end `e`; a CR before the LF belongs to the end. */
  predicate StartsLine(buf: string, body: string, e: string) {
    body + e <= buf && Free(body, '\n') && LineEnd(e) && (e == "\n" ==> !EndsInCr(body))
  }

  lemma FindLine(buf: string) returns (body: string, e: string)
    requires !Free(buf, '\n')
    ensures StartsLine(buf, body, e)
  {
    var end := IndexOf(buf, '\n');
    var line := buf[..end];
    assert buf[..end + 1] == line + "\n";
    body, e := StripCr(line), if EndsInCr(line) then "\r\n" else "\n";
    assert body + e == line + "\n";
  }

  lemma LineFound(buf: string, body: string, e: string)
    requires StartsLine(buf, body, e)
    ensures IndexOf(buf, '\n') == |body| + |e| - 1 < |buf| && StripCr(buf[..|body| + |e| - 1]) == body && !Free(buf, '\n')
  {
    var line := if e == "\n" then body else body + "\r";
    assert line + "\n" == body + e && Free(line, '\n');
    LineEndsAt(buf, line);
  }

  lemma LineEndsAt(buf: string, line: string)
    requires line + "\n" <= buf && Free(line, '\n')
    ensures IndexOf(buf, '\n') == |line| < |buf| && buf[..|line|] == line
  {
    assert forall i :: 0 <= i < |line| + 1 ==> buf[i] == (line + "\n")[i];
    IndexOfIs(buf, '\n', |line|);
  }

  lemma FrameAt<T>(buf: string, body: string, e: string, max: nat, lineOf: string -> Line<T>)
    requires StartsLine(buf, body, e)
    ensures |body| + |e| <= |buf| && FrameBy(buf, max, lineOf) == LineFrame(buf, |body| + |e| - 1, lineOf(body))
  {
    LineFound(buf, body, e);
  }

  lemma NoFrame<T>(buf: string, max: nat, lineOf: string -> Line<T>)
    requires Free(buf, '\n')
    ensures FrameBy(buf, max, lineOf) == if |buf| > max then Overlong else Incomplete
  {
    assert IndexOf(buf, '\n') == |buf|;
  }

  // ---------- Words of the grammar ----------

  /** A key: one to 250 bytes above the space. */
  predicate KeyBytes(k: string) {
    1 <= |k| <= 250 && forall i :: 0 <= i < |k| ==> k[i] as int > 0x20
  }

  predicate AllDigits(d: string) {
    forall i :: 0 <= i < |d| ==> '0' <= d[i] <= '9'
  }

  /** One to ten digits that spell a length of at most 1 MiB. */
  predicate Length(d: string, n: nat) {
    1 <= |d| <= 10 && AllDigits(d) && NumberOf(d) == n && n <= 1048576
  }

  lemma LengthIsParsed(d: string, n: nat)
    ensures ParseLength(d) == Some(n) <==> Length(d, n)
  {
    assert AllDigits(d) <==> forall i :: 0 <= i < |d| ==> IsDigit(d[i]);
  }

  lemma KeyIsValid(k: string)
    ensures ValidKey(k) <==> KeyBytes(k)
  {
  }

  lemma LengthIsPlain(d: string, n: nat)
    requires Length(d, n)
    ensures Free(d, ' ') && Free(d, '\n') && !EndsInCr(d)
  {
  }

  // ---------- Command lines ----------

  /** A command line that is a whole request. */
  predicate PlainCommand(body: string, r: Request) {
    match r
    case Get(k) => KeyBytes(k) && body == "GET " + k
    case Delete(k) => KeyBytes(k) && body == "DELETE " + k
    case Ping => body == "PING"
    case Set(_, _) => false
  }

  /** A command line that announces a value. */
  predicate SetCommand(body: string, k: Key, d: string, len: nat) {
    KeyBytes(k) && Length(d, len) && body == "SET " + k + " " + d
  }

  /** The text up to the first space. */
  predicate FirstWord(body: string, w: string) {
    Free(w, ' ') && (body == w || w + " " <= body)
  }

  /** What is said of a line that is no command. */
  ghost predicate Complaint(body: string, m: string) {
    || (FirstWord(body, "") && m == "empty command")
    || (FirstWord(body, "GET") && m == "malformed GET request")
    || (FirstWord(body, "DELETE") && m == "malformed DELETE request")
    || (FirstWord(body, "PING") && m == "malformed PING request")
    || (FirstWord(body, "SET") && m == "malformed SET request")
    || (exists w :: FirstWord(body, w) && Unknown(w) && m == "unknown command: " + w)
  }

  predicate Unknown(w: string) {
    w != "" && w != "GET" && w != "DELETE" && w != "PING" && w != "SET"
  }

  ghost predicate NoCommand(body: string) {
    (forall r :: !PlainCommand(body, r)) && (forall k, d, len :: !SetCommand(body, k, d, len))
  }

  lemma FirstWordIs(body: string, w: string)
    requires FirstWord(body, w)
    ensures Tokens(body)[0] == w && (body == w <==> |Tokens(body)| == 1)
    ensures body != w ==> Tokens(body) == [w] + Tokens(body[|w| + 1..])
  {
    if body == w {
      LastToken(w);
    } else {
      assert body == w + " " + body[|w| + 1..];
      FirstToken(w, body[|w| + 1..]);
    }
  }

  lemma WordOf(body: string) returns (w: string)
    ensures FirstWord(body, w) && w == Tokens(body)[0]
  {
    var i := IndexOf(body, ' ');
    w := body[..i];
    assert i < |body| ==> body[..i + 1] == w + " ";
    FirstWordIs(body, w);
  }

  lemma JoinedTwo(ts: seq<string>)
    requires |ts| == 2
    ensures Joined(ts) == ts[0] + " " + ts[1]
  {
    assert ts[1..] == [ts[1]];
  }

  lemma JoinedThree(ts: seq<string>)
    requires |ts| == 3
    ensures Joined(ts) == ts[0] + " " + ts[1] + " " + ts[2]
  {
    JoinedTwo(ts[1..]);
    assert ts[0] + " " + (ts[1] + " " + ts[2]) == ts[0] + " " + ts[1] + " " + ts[2];
  }

  /** Two words: the tokens are exactly these. */
  lemma TwoWords(body: string, a: string, b: string)
    requires Free(a, ' ') && Free(b, ' ')
    ensures Tokens(body) == [a, b] <==> body == a + " " + b
  {
    if body == a + " " + b {
      TwoTokens(a, b);
    }
    if Tokens(body) == [a, b] {
      TokensJoin(body);
      JoinedTwo([a, b]);
    }
  }

  lemma ThreeWords(body: string, a: string, b: string, d: string)
    requires Free(a, ' ') && Free(b, ' ') && Free(d, ' ')
    ensures Tokens(body) == [a, b, d] <==> body == a + " " + b + " " + d
  {
    if body == a + " " + b + " " + d {
      assert body == a + " " + (b + " " + d);
      FirstToken(a, b + " " + d);
      TwoTokens(b, d);
    }
    if Tokens(body) == [a, b, d] {
      TokensJoin(body);
      JoinedThree([a, b, d]);
    }
  }

  lemma Words()
    ensures "GET" + " " == "GET " && "DELETE" + " " == "DELETE " && "SET" + " " == "SET "
    ensures Free("GET", ' ') && Free("DELETE", ' ') && Free("SET", ' ') && Free("PING", ' ')
    ensures "GET" != "DELETE" && "GET" != "SET" && "GET" != "PING"
    ensures "DELETE" != "SET" && "DELETE" != "PING" && "SET" != "PING"
  {
    assert "GET"[0] == 'G' && "DELETE"[0] == 'D' && "SET"[0] == 'S' && "PING"[0] == 'P';
  }

  lemma PlainTokens(body: string, r: Request)
    requires !r.Set?
    ensures PlainCommand(body, r) <==>
            match r
            case Get(k) => ValidKey(k) && Tokens(body) == ["GET", k]
            case Delete(k) => ValidKey(k) && Tokens(body) == ["DELETE", k]
            case Ping => Tokens(body) == ["PING"]
  {
    Words();
    match r
    case Get(k) =>
      KeyIsValid(k);
      if ValidKey(k) { KeyIsPlain(k); TwoWords(body, "GET", k); }
    case Delete(k) =>
      KeyIsValid(k);
      if ValidKey(k) { KeyIsPlain(k); TwoWords(body, "DELETE", k); }
    case Ping =>
      LastToken("PING");
      if Tokens(body) == ["PING"] { TokensJoin(body); }
  }

  lemma SetTokens(body: string, k: Key, d: string, len: nat)
    ensures SetCommand(body, k, d, len) <==> ValidKey(k) && ParseLength(d) == Some(len) && Tokens(body) == ["SET", k, d]
  {
    Words();
    KeyIsValid(k);
    LengthIsParsed(d, len);
    if ValidKey(k) && Length(d, len) {
      KeyIsPlain(k);
      LengthIsPlain(d, len);
      ThreeWords(body, "SET", k, d);
    }
  }

  ghost predicate Says(l: Line<Request>, k: Key, len: nat) {
    l.NeedsValue? && l.len == len && forall v :: l.make(v) == Set(k, v)
  }

  /** Command lines that are whole requests. */
  lemma PlainIff(body: string, r: Request)
    ensures CommandLine(body) == Whole(Parsed(r)) <==> PlainCommand(body, r)
  {
    Words();
    if !r.Set? { PlainTokens(body, r); }
    TokensAre(Tokens(body), r);
  }

  lemma TokensAre(ts: seq<string>, r: Request)
    requires |ts| > 0
    ensures Command(ts) == Whole(Parsed(r)) <==>
            match r
            case Get(k) => ValidKey(k) && ts == ["GET", k]
            case Delete(k) => ValidKey(k) && ts == ["DELETE", k]
            case Ping => ts == ["PING"]
            case Set(_, _) => false
  {
    Words();
  }

  lemma SetIs(body: string, k: Key, d: string, len: nat)
    requires SetCommand(body, k, d, len)
    ensures Says(CommandLine(body), k, len)
  {
    SetTokens(body, k, d, len);
    Words();
  }

  lemma SetOnly(body: string) returns (k: Key, d: string)
    requires CommandLine(body).NeedsValue?
    ensures SetCommand(body, k, d, CommandLine(body).len) && Says(CommandLine(body), k, CommandLine(body).len)
  {
    var ts := Tokens(body);
    k, d := ts[1], ts[2];
    assert ts == ["SET", k, d];
    SetTokens(body, k, d, CommandLine(body).len);
  }

  lemma BadIsComplaint(ts: seq<string>, m: string)
    requires |ts| > 0 && Command(ts) == Whole(Bad(m))
    ensures || (ts[0] == "" && m == "empty command")
            || (ts[0] == "GET" && m == "malformed GET request")
            || (ts[0] == "DELETE" && m == "malformed DELETE request")
            || (ts[0] == "PING" && m == "malformed PING request")
            || (ts[0] == "SET" && m == "malformed SET request")
            || (Unknown(ts[0]) && m == "unknown command: " + ts[0])
  {
    Words();
    assert "malformed " + "GET" + " request" == "malformed GET request";
    assert "malformed " + "DELETE" + " request" == "malformed DELETE request";
  }

  lemma OneComplaint(body: string, m: string, m': string)
    requires Complaint(body, m) && Complaint(body, m')
    ensures m == m'
  {
    var w := WordOf(body);
    Words();
    ComplaintBy(body, m, w);
    ComplaintBy(body, m', w);
  }

  lemma ComplaintBy(body: string, m: string, w: string)
    requires Complaint(body, m) && w == Tokens(body)[0]
    ensures m == if w == "" then "empty command"
                 else if w == "GET" then "malformed GET request"
                 else if w == "DELETE" then "malformed DELETE request"
                 else if w == "PING" then "malformed PING request"
                 else if w == "SET" then "malformed SET request"
                 else "unknown command: " + w
  {
    Words();
    forall u | FirstWord(body, u) ensures u == w { FirstWordIs(body, u); }
  }

  /** Command lines that are refused, and with which words. */
  lemma BadIff(body: string, m: string)
    ensures CommandLine(body) == Whole(Bad(m)) <==> NoCommand(body) && Complaint(body, m)
  {
    if CommandLine(body).Whole? && CommandLine(body).item.Bad? {
      BadIs(body);
      if NoCommand(body) && Complaint(body, m) { OneComplaint(body, m, CommandLine(body).item.message); }
    } else if CommandLine(body).Whole? {
      PlainIff(body, CommandLine(body).item.msg);
    } else {
      var k, d := SetOnly(body);
    }
  }

  lemma BadIs(body: string)
    requires CommandLine(body).Whole? && CommandLine(body).item.Bad?
    ensures NoCommand(body) && Complaint(body, CommandLine(body).item.message)
  {
    forall r ensures !PlainCommand(body, r) { PlainIff(body, r); }
    forall k, d, len ensures !SetCommand(body, k, d, len) {
      if SetCommand(body, k, d, len) { SetIs(body, k, d, len); }
    }
    var w := WordOf(body);
    BadIsComplaint(Tokens(body), CommandLine(body).item.message);
  }

  // ---------- Requests over bytes ----------

  /** The bytes of a SET. */
  predicate SetSpelling(b: string, k: Key, v: Value, d: string, e: string) {
    KeyBytes(k) && Length(d, |v|) && LineEnd(e) && b == "SET " + k + " " + d + e + v + "\n"
  }

  /** `b` spells request `r`. */
  ghost predicate Spells(b: string, r: Request) {
    match r
    case Get(k) => KeyBytes(k) && (b == "GET " + k + "\n" || b == "GET " + k + "\r\n")
    case Delete(k) => KeyBytes(k) && (b == "DELETE " + k + "\n" || b == "DELETE " + k + "\r\n")
    case Ping => b == "PING\n" || b == "PING\r\n"
    case Set(k, v) => exists d, e :: SetSpelling(b, k, v, d, e)
  }

  /** The bytes of a SET whose value is followed by something else than an LF. */
  predicate Overrun(b: string, k: Key, d: string, e: string, v: Value, x: char) {
    KeyBytes(k) && Length(d, |v|) && LineEnd(e) && x != '\n' && b == "SET " + k + " " + d + e + v + [x]
  }

  /** `b` is refused with message `m`. */
  ghost predicate Refused(b: string, m: string) {
    || (m == "expected newline after value" && exists k, d, e, v, x :: Overrun(b, k, d, e, v, x))
    || (exists body, e :: StartsLine(b, body, e) && b == body + e && NoCommand(body) && Complaint(body, m))
  }

  /** The value, or the LF behind it, has not arrived. */
  predicate Waiting(b: string, k: Key, d: string, e: string, len: nat) {
    KeyBytes(k) && Length(d, len) && LineEnd(e) && "SET " + k + " " + d + e <= b && |b| <= |"SET " + k + " " + d + e| + len
  }

  /** What a buffer is read as, said over its bytes. */
  ghost predicate ReadsRequest(buf: string, f: Frame<Item<Request>>) {
    match f
    case Took(Parsed(r), n) => n <= |buf| && Spells(buf[..n], r)
    case Took(Bad(m), n) => n <= |buf| && Refused(buf[..n], m)
    case Incomplete => (Free(buf, '\n') && |buf| <= 265) || exists k, d, e, len :: Waiting(buf, k, d, e, len)
    case Overlong => Free(buf, '\n') && |buf| > 265
  }

  lemma SetBodyIsPlain(body: string, k: Key, d: string, len: nat)
    requires SetCommand(body, k, d, len)
    ensures Free(body, '\n') && !EndsInCr(body)
  {
    LengthIsPlain(d, len);
    KeyIsPlain(k);
    assert body[|body| - 1] == d[|d| - 1];
    assert Free("SET " + k, '\n') && Free("SET " + k + " ", '\n');
  }

  lemma PlainBodyIsPlain(body: string, r: Request)
    requires PlainCommand(body, r)
    ensures Free(body, '\n') && !EndsInCr(body)
  {
    if !r.Ping? {
      KeyIsPlain(r.key);
      assert body[|body| - 1] == r.key[|r.key| - 1];
    }
  }

  /** A line without value: the frame is its meaning. */
  lemma WholeLine<T>(buf: string, body: string, e: string, max: nat, lineOf: string -> Line<T>)
    requires StartsLine(buf, body, e) && lineOf(body).Whole?
    ensures FrameBy(buf, max, lineOf) == Took(lineOf(body).item, |body + e|)
  {
    FrameAt(buf, body, e, max, lineOf);
  }

  /** A line with a value: waiting, overrun or complete. */
  lemma AnnouncedValue<T>(buf: string, body: string, e: string, max: nat, lineOf: string -> Line<T>)
    requires StartsLine(buf, body, e) && lineOf(body).NeedsValue?
    ensures var l, n := lineOf(body), |body + e|;
            FrameBy(buf, max, lineOf) ==
            if |buf| <= n + l.len then Incomplete
            else if buf[n + l.len] != '\n' then Took(Bad("expected newline after value"), n + l.len + 1)
            else Took(Parsed(l.make(buf[n..n + l.len])), n + l.len + 1)
  {
    FrameAt(buf, body, e, max, lineOf);
  }

  lemma Parts(buf: string, body: string, e: string, len: nat)
    requires body + e <= buf && |buf| > |body + e| + len
    ensures var n := |body + e|; buf[..n + len + 1] == body + e + buf[n..n + len] + [buf[n + len]]
  {
    var n := |body + e|;
    assert buf[..n] == body + e;
  }

  lemma Prefixed(buf: string, n: nat, a: string, b: string)
    requires n <= |buf| && buf[..n] == a + b
    ensures a <= buf && |a| <= n
  {
    assert forall i :: 0 <= i < |a| ==> buf[i] == (a + b)[i];
  }

  /** A value at the front of the buffer, behind a line that announces it; the byte behind the value is `x`. */
  lemma ValueFront<T>(buf: string, n: nat, body: string, e: string, v: Value, x: char, max: nat, lineOf: string -> Line<T>)
    requires n <= |buf| && Free(body, '\n') && !EndsInCr(body) && LineEnd(e) && buf[..n] == body + e + v + [x]
    requires lineOf(body).NeedsValue? && lineOf(body).len == |v|
    ensures FrameBy(buf, max, lineOf)
            == Took(if x == '\n' then Parsed(lineOf(body).make(v)) else Bad("expected newline after value"), n)
  {
    Regrouped(body + e, v, x);
    Prefixed(buf, n, body + e, v + [x]);
    AnnouncedValue(buf, body, e, max, lineOf);
    ValueAt(buf, n, body + e, v, x);
  }

  /** A SET's bytes at the front of the buffer, the byte behind the value being `x`. */
  lemma SetAtFront(buf: string, n: nat, k: Key, d: string, e: string, v: Value, x: char)
    requires n <= |buf| && KeyBytes(k) && Length(d, |v|) && LineEnd(e) && buf[..n] == "SET " + k + " " + d + e + v + [x]
    ensures RequestFrame(buf) == Took(if x == '\n' then Parsed(Set(k, v)) else Bad("expected newline after value"), n)
  {
    var body := "SET " + k + " " + d;
    SetBodyIsPlain(body, k, d, |v|);
    SetIs(body, k, d, |v|);
    ValueFront(buf, n, body, e, v, x, MAX_COMMAND_LINE_LEN, CommandLine);
  }

  lemma Regrouped(head: string, v: Value, x: char)
    ensures head + v + [x] == head + (v + [x])
  {
  }

  lemma ValueAt(buf: string, n: nat, head: string, v: Value, x: char)
    requires n <= |buf| && buf[..n] == head + (v + [x])
    ensures n == |head| + |v| + 1 && buf[|head|..|head| + |v|] == v && buf[|head| + |v|] == x
  {
    assert forall i :: 0 <= i < n ==> buf[i] == (head + (v + [x]))[i];
  }

  lemma PlainAtFront(buf: string, n: nat, body: string, e: string, r: Request)
    requires n <= |buf| && PlainCommand(body, r) && LineEnd(e) && buf[..n] == body + e
    ensures RequestFrame(buf) == Took(Parsed(r), n)
  {
    PlainBodyIsPlain(body, r);
    PlainIff(body, r);
    Prefixed(buf, n, body + e, "");
    WholeLine(buf, body, e, MAX_COMMAND_LINE_LEN, CommandLine);
  }

  lemma SpelledIsRead(buf: string, n: nat, r: Request)
    requires n <= |buf| && Spells(buf[..n], r)
    ensures RequestFrame(buf) == Took(Parsed(r), n)
  {
    var b := buf[..n];
    match r
    case Get(k) => PlainAtFront(buf, n, "GET " + k, if b == "GET " + k + "\n" then "\n" else "\r\n", r);
    case Delete(k) => PlainAtFront(buf, n, "DELETE " + k, if b == "DELETE " + k + "\n" then "\n" else "\r\n", r);
    case Ping =>
      assert "PING\n" == "PING" + "\n" && "PING\r\n" == "PING" + "\r\n";
      PlainAtFront(buf, n, "PING", if b == "PING\n" then "\n" else "\r\n", r);
    case Set(k, v) =>
      var d, e :| SetSpelling(b, k, v, d, e);
      SetAtFront(buf, n, k, d, e, v, '\n');
  }

  lemma RefusedIsRead(buf: string, n: nat, m: string)
    requires n <= |buf| && Refused(buf[..n], m)
    ensures RequestFrame(buf) == Took(Bad(m), n)
  {
    var b := buf[..n];
    if body, e :| StartsLine(b, body, e) && b == body + e && NoCommand(body) && Complaint(body, m) {
      BadIff(body, m);
      Prefixed(buf, n, body + e, "");
      WholeLine(buf, body, e, MAX_COMMAND_LINE_LEN, CommandLine);
    } else {
      var k, d, e, v, x :| Overrun(b, k, d, e, v, x);
      SetAtFront(buf, n, k, d, e, v, x);
    }
  }

  lemma WaitingIsRead(buf: string, k: Key, d: string, e: string, len: nat)
    requires Waiting(buf, k, d, e, len)
    ensures RequestFrame(buf) == Incomplete
  {
    var body := "SET " + k + " " + d;
    SetBodyIsPlain(body, k, d, len);
    SetIs(body, k, d, len);
    AnnouncedValue(buf, body, e, MAX_COMMAND_LINE_LEN, CommandLine);
  }

  /** From the frame to the bytes, for a buffer whose first line announces a value. */
  lemma SetFrameReads(buf: string, body: string, e: string)
    requires StartsLine(buf, body, e) && CommandLine(body).NeedsValue?
    ensures ReadsRequest(buf, RequestFrame(buf))
  {
    var k, d := SetOnly(body);
    var len, n := CommandLine(body).len, |body + e|;
    if |buf| <= n + len {
      assert Waiting(buf, k, d, e, len);
      WaitingIsRead(buf, k, d, e, len);
    } else {
      Parts(buf, body, e, len);
      SetAtFront(buf, n + len + 1, k, d, e, buf[n..n + len], buf[n + len]);
      SetReads(buf, n + len + 1, k, d, e, buf[n..n + len], buf[n + len]);
    }
  }

  lemma SetReads(buf: string, n: nat, k: Key, d: string, e: string, v: Value, x: char)
    requires n <= |buf| && KeyBytes(k) && Length(d, |v|) && LineEnd(e) && buf[..n] == "SET " + k + " " + d + e + v + [x]
    ensures ReadsRequest(buf, Took(if x == '\n' then Parsed(Set(k, v)) else Bad("expected newline after value"), n))
  {
    if x == '\n' {
      assert SetSpelling(buf[..n], k, v, d, e);
    } else {
      assert Overrun(buf[..n], k, d, e, v, x);
    }
  }

  lemma WholeFrameReads(buf: string, body: string, e: string)
    requires StartsLine(buf, body, e) && CommandLine(body).Whole?
    ensures ReadsRequest(buf, RequestFrame(buf))
  {
    WholeLine(buf, body, e, MAX_COMMAND_LINE_LEN, CommandLine);
    var n := |body + e|;
    assert buf[..n] == body + e;
    match CommandLine(body).item
    case Parsed(r) =>
      PlainIff(body, r);
      SpelledBy(body, e, r);
    case Bad(m) =>
      BadIff(body, m);
      assert StartsLine(buf[..n], body, e);
  }

  lemma SpelledBy(body: string, e: string, r: Request)
    requires PlainCommand(body, r) && LineEnd(e)
    ensures Spells(body + e, r)
  {
    assert "PING" + "\n" == "PING\n" && "PING" + "\r\n" == "PING\r\n";
  }

  lemma FrameReads(buf: string)
    ensures ReadsRequest(buf, RequestFrame(buf))
  {
    if Free(buf, '\n') {
      NoFrame(buf, MAX_COMMAND_LINE_LEN, CommandLine);
    } else {
      var body, e := FindLine(buf);
      if CommandLine(body).Whole? {
        WholeFrameReads(buf, body, e);
      } else {
        SetFrameReads(buf, body, e);
      }
    }
  }

  lemma ReadsFrame(buf: string, f: Frame<Item<Request>>)
    requires ReadsRequest(buf, f)
    ensures RequestFrame(buf) == f
  {
    match f
    case Took(Parsed(r), n) => SpelledIsRead(buf, n, r);
    case Took(Bad(m), n) => RefusedIsRead(buf, n, m);
    case Overlong => NoFrame(buf, MAX_COMMAND_LINE_LEN, CommandLine);
    case Incomplete =>
      if Free(buf, '\n') && |buf| <= 265 {
        NoFrame(buf, MAX_COMMAND_LINE_LEN, CommandLine);
      } else {
        var k, d, e, len :| Waiting(buf, k, d, e, len);
        WaitingIsRead(buf, k, d, e, len);
      }
  }

  /** The request grammar.  A buffer is read as request `r` of `n` bytes exactly when its first `n` bytes spell `r`; it
      is refused, kept waiting or called too long exactly when its bytes say so. */
  lemma RequestGrammar(buf: string, f: Frame<Item<Request>>)
    ensures RequestFrame(buf) == f <==> ReadsRequest(buf, f)
  {
    FrameReads(buf);
    if ReadsRequest(buf, f) { ReadsFrame(buf, f); }
  }

  // ---------- Responses ----------

  /** A line that is a whole response. */
  predicate PlainReply(body: string, r: Response) {
    match r
    case Ok => body == "OK"
    case Deleted => body == "DELETED"
    case NotFound => body == "NOT_FOUND"
    case Pong => body == "PONG"
    case Error(m) => body == "ERROR " + m || (m == "" && body == "ERROR")
    case ValueIs(_) => false
  }

  /** A line that announces a value. */
  predicate ValueReply(body: string, d: string, len: nat) {
    Length(d, len) && body == "VALUE " + d
  }

  ghost predicate NoReply(body: string) {
    (forall r :: !PlainReply(body, r)) && (forall d, len :: !ValueReply(body, d, len))
  }

  lemma ReplyWords()
    ensures "OK" != "DELETED" && "OK" != "NOT_FOUND" && "OK" != "PONG" && "OK" != "ERROR"
    ensures "DELETED" != "NOT_FOUND" && "DELETED" != "PONG" && "DELETED" != "ERROR"
    ensures "NOT_FOUND" != "PONG" && "NOT_FOUND" != "ERROR" && "PONG" != "ERROR"
    ensures forall m :: "ERROR " + m != "OK" && "ERROR " + m != "DELETED" && "ERROR " + m != "NOT_FOUND"
                        && "ERROR " + m != "PONG" && "ERROR " + m != "ERROR"
    ensures forall d :: "VALUE " + d != "OK" && "VALUE " + d != "DELETED" && "VALUE " + d != "NOT_FOUND"
                        && "VALUE " + d != "PONG" && "VALUE " + d != "ERROR" && !("ERROR " <= "VALUE " + d)
  {
    assert "OK"[0] == 'O' && "DELETED"[0] == 'D' && "NOT_FOUND"[0] == 'N' && "PONG"[0] == 'P' && "ERROR"[0] == 'E';
    forall m ensures ("ERROR " + m)[0] == 'E' && |"ERROR " + m| >= 6 { }
    forall d ensures ("VALUE " + d)[0] == 'V' { }
  }

  lemma AfterHead(head: string, body: string)
    ensures head <= body <==> exists m :: body == head + m
    ensures head <= body ==> body == head + body[|head|..]
  {
  }

  lemma PlainReplyIff(body: string, r: Response)
    ensures ResponseLine(body) == Whole(Parsed(r)) <==> PlainReply(body, r)
  {
    ReplyWords();
    if PlainReply(body, r) {
      if r.Error? && body == "ERROR " + r.message { ErrorIsRead(r.message); }
    }
    if ResponseLine(body) == Whole(Parsed(r)) && r.Error? {
      AfterHead("ERROR ", body);
      assert "ERROR " <= body && |body| == 6 ==> body == "ERROR " + "";
    }
  }

  ghost predicate SaysValue(l: Line<Response>, len: nat) {
    l.NeedsValue? && l.len == len && forall v :: l.make(v) == ValueIs(v)
  }

  lemma ValueReplyIs(body: string, d: string, len: nat)
    requires ValueReply(body, d, len)
    ensures SaysValue(ResponseLine(body), len)
  {
    ReplyWords();
    LengthIsParsed(d, len);
    assert body[6..] == d && "VALUE " <= body;
  }

  lemma ValueReplyOnly(body: string) returns (d: string)
    requires ResponseLine(body).NeedsValue?
    ensures ValueReply(body, d, ResponseLine(body).len) && SaysValue(ResponseLine(body), ResponseLine(body).len)
  {
    d := body[6..];
    AfterHead("VALUE ", body);
    LengthIsParsed(d, ResponseLine(body).len);
  }

  /** What is said of a line that is no response. */
  predicate ReplyComplaint(body: string, m: string) {
    m == if "VALUE " <= body then "malformed VALUE response" else "unknown response: " + body
  }

  lemma BadReplyIff(body: string, m: string)
    ensures ResponseLine(body) == Whole(Bad(m)) <==> NoReply(body) && ReplyComplaint(body, m)
  {
    if ResponseLine(body).Whole? && ResponseLine(body).item.Bad? {
      forall r ensures !PlainReply(body, r) { PlainReplyIff(body, r); }
      forall d, len ensures !ValueReply(body, d, len) {
        if ValueReply(body, d, len) { ValueReplyIs(body, d, len); }
      }
    } else if ResponseLine(body).Whole? {
      PlainReplyIff(body, ResponseLine(body).item.msg);
    } else {
      var d := ValueReplyOnly(body);
    }
  }

  /** The bytes of a VALUE, the byte behind the value being `x`. */
  predicate ValueBytes(b: string, d: string, e: string, v: Value, x: char) {
    Length(d, |v|) && LineEnd(e) && b == "VALUE " + d + e + v + [x]
  }

  /** `b` spells response `r`.  A CR before the LF belongs to the line's end. */
  ghost predicate SpellsReply(b: string, r: Response) {
    if r.ValueIs? then exists d, e :: ValueBytes(b, d, e, r.value, '\n')
    else exists body, e :: StartsLine(b, body, e) && b == body + e && PlainReply(body, r)
  }

  ghost predicate RefusedReply(b: string, m: string) {
    || (m == "expected newline after value" && exists d, e, v, x :: ValueBytes(b, d, e, v, x) && x != '\n')
    || (exists body, e :: StartsLine(b, body, e) && b == body + e && NoReply(body) && ReplyComplaint(body, m))
  }

  predicate WaitingReply(b: string, d: string, e: string, len: nat) {
    Length(d, len) && LineEnd(e) && "VALUE " + d + e <= b && |b| <= |"VALUE " + d + e| + len
  }

  ghost predicate ReadsResponse(buf: string, f: Frame<Item<Response>>) {
    match f
    case Took(Parsed(r), n) => n <= |buf| && SpellsReply(buf[..n], r)
    case Took(Bad(m), n) => n <= |buf| && RefusedReply(buf[..n], m)
    case Incomplete => (Free(buf, '\n') && |buf| <= 4096) || exists d, e, len :: WaitingReply(buf, d, e, len)
    case Overlong => Free(buf, '\n') && |buf| > 4096
  }

  lemma ValueBodyIsPlain(body: string, d: string, len: nat)
    requires ValueReply(body, d, len)
    ensures Free(body, '\n') && !EndsInCr(body)
  {
    LengthIsPlain(d, len);
    assert body[|body| - 1] == d[|d| - 1];
  }

  lemma ValueAtFront(buf: string, n: nat, d: string, e: string, v: Value, x: char)
    requires n <= |buf| && ValueBytes(buf[..n], d, e, v, x)
    ensures ResponseFrame(buf) == Took(if x == '\n' then Parsed(ValueIs(v)) else Bad("expected newline after value"), n)
  {
    var body := "VALUE " + d;
    ValueBodyIsPlain(body, d, |v|);
    ValueReplyIs(body, d, |v|);
    ValueFront(buf, n, body, e, v, x, MAX_RESPONSE_LINE_LEN, ResponseLine);
  }

  lemma WaitingReplyIsRead(buf: string, d: string, e: string, len: nat)
    requires WaitingReply(buf, d, e, len)
    ensures ResponseFrame(buf) == Incomplete
  {
    var body := "VALUE " + d;
    ValueBodyIsPlain(body, d, len);
    ValueReplyIs(body, d, len);
    AnnouncedValue(buf, body, e, MAX_RESPONSE_LINE_LEN, ResponseLine);
  }

  lemma LineReplyIsRead(buf: string, n: nat, body: string, e: string)
    requires n <= |buf| && StartsLine(buf[..n], body, e) && buf[..n] == body + e && ResponseLine(body).Whole?
    ensures ResponseFrame(buf) == Took(ResponseLine(body).item, n)
  {
    Prefixed(buf, n, body + e, "");
    WholeLine(buf, body, e, MAX_RESPONSE_LINE_LEN, ResponseLine);
  }

  lemma ReadsResponseFrame(buf: string, f: Frame<Item<Response>>)
    requires ReadsResponse(buf, f)
    ensures ResponseFrame(buf) == f
  {
    match f
    case Took(Parsed(r), n) =>
      if r.ValueIs? {
        var d, e :| ValueBytes(buf[..n], d, e, r.value, '\n');
        ValueAtFront(buf, n, d, e, r.value, '\n');
      } else {
        var body, e :| StartsLine(buf[..n], body, e) && buf[..n] == body + e && PlainReply(body, r);
        PlainReplyIff(body, r);
        LineReplyIsRead(buf, n, body, e);
      }
    case Took(Bad(m), n) =>
      if body, e :| StartsLine(buf[..n], body, e) && buf[..n] == body + e && NoReply(body) && ReplyComplaint(body, m) {
        BadReplyIff(body, m);
        LineReplyIsRead(buf, n, body, e);
      } else {
        var d, e, v, x :| ValueBytes(buf[..n], d, e, v, x) && x != '\n';
        ValueAtFront(buf, n, d, e, v, x);
      }
    case Overlong => NoFrame(buf, MAX_RESPONSE_LINE_LEN, ResponseLine);
    case Incomplete =>
      if Free(buf, '\n') && |buf| <= 4096 {
        NoFrame(buf, MAX_RESPONSE_LINE_LEN, ResponseLine);
      } else {
        var d, e, len :| WaitingReply(buf, d, e, len);
        WaitingReplyIsRead(buf, d, e, len);
      }
  }

  lemma WholeReplyReads(buf: string, body: string, e: string)
    requires StartsLine(buf, body, e) && ResponseLine(body).Whole?
    ensures ReadsResponse(buf, ResponseFrame(buf))
  {
    var n := |body + e|;
    assert buf[..n] == body + e;
    assert StartsLine(buf[..n], body, e);
    LineReplyIsRead(buf, n, body, e);
    match ResponseLine(body).item
    case Parsed(r) => PlainReplyIff(body, r);
    case Bad(m) => BadReplyIff(body, m);
  }

  lemma ValueReplyReads(buf: string, body: string, e: string)
    requires StartsLine(buf, body, e) && ResponseLine(body).NeedsValue?
    ensures ReadsResponse(buf, ResponseFrame(buf))
  {
    var d := ValueReplyOnly(body);
    var len, n := ResponseLine(body).len, |body + e|;
    if |buf| <= n + len {
      assert WaitingReply(buf, d, e, len);
      WaitingReplyIsRead(buf, d, e, len);
    } else {
      Parts(buf, body, e, len);
      ValueAtFront(buf, n + len + 1, d, e, buf[n..n + len], buf[n + len]);
      ValueReads(buf, n + len + 1, d, e, buf[n..n + len], buf[n + len]);
    }
  }

  lemma ValueReads(buf: string, n: nat, d: string, e: string, v: Value, x: char)
    requires n <= |buf| && ValueBytes(buf[..n], d, e, v, x)
    ensures ReadsResponse(buf, Took(if x == '\n' then Parsed(ValueIs(v)) else Bad("expected newline after value"), n))
  {
  }

  lemma ResponseFrameReads(buf: string)
    ensures ReadsResponse(buf, ResponseFrame(buf))
  {
    if Free(buf, '\n') {
      NoFrame(buf, MAX_RESPONSE_LINE_LEN, ResponseLine);
    } else {
      var body, e := FindLine(buf);
      if ResponseLine(body).Whole? {
        WholeReplyReads(buf, body, e);
      } else {
        ValueReplyReads(buf, body, e);
      }
    }
  }

  /** The response grammar, in the same way. */
  lemma ResponseGrammar(buf: string, f: Frame<Item<Response>>)
    ensures ResponseFrame(buf) == f <==> ReadsResponse(buf, f)
  {
    ResponseFrameReads(buf);
    if ReadsResponse(buf, f) { ReadsResponseFrame(buf, f); }
  }

  // ---------- The printers ----------

  lemma LastDigit(d: string)
    requires d != "" && AllDigits(d)
    ensures var pre, c, n := d[..|d| - 1], d[|d| - 1], NumberOf(d);
            AllDigits(pre) && NumberOf(pre) == n / 10 && Digit(n % 10) == c
  {
    var pre, c := d[..|d| - 1], d[|d| - 1];
    assert IsDigit(c) && NumberOf(d) == 10 * NumberOf(pre) + DigitValue(c);
  }

  /** No number has a spelling shorter than the one printed, nor another that short. */
  lemma {:induction false} DecimalIsShortest(d: string, n: nat)
    requires d != "" && AllDigits(d) && NumberOf(d) == n
    ensures |Decimal(n)| <= |d| && (|d| == |Decimal(n)| ==> d == Decimal(n))
    decreases |d|
  {
    LastDigit(d);
    if n < 10 {
      assert |Decimal(n)| == 1 && (|d| == 1 ==> d == [d[0]]);
    } else {
      var pre := d[..|d| - 1];
      assert pre != "" by { assert NumberOf("") == 0; }
      DecimalIsShortest(pre, n / 10);
      assert d == pre + [Digit(n % 10)];
    }
  }

  /** `d` is how `n` is printed: no other digits for it are as short. */
  ghost predicate Shortest(d: string, n: nat) {
    && d != "" && AllDigits(d) && NumberOf(d) == n
    && forall d' :: d' != "" && AllDigits(d') && NumberOf(d') == n && |d'| <= |d| ==> d' == d
  }

  lemma PrintedShortest(n: nat)
    ensures Shortest(Decimal(n), n)
  {
    DecimalDigits(n);
    assert forall j :: 0 <= j < |Decimal(n)| ==> IsDigit(Decimal(n)[j]);
    forall d' | d' != "" && AllDigits(d') && NumberOf(d') == n && |d'| <= |Decimal(n)| ensures d' == Decimal(n) {
      DecimalIsShortest(d', n);
    }
  }

  lemma DecimalIsLength(n: nat)
    requires n <= 1048576
    ensures Length(Decimal(n), n)
  {
    DecimalDigits(n);
    LengthRoundTrip(n);
    assert forall i :: 0 <= i < |Decimal(n)| ==> IsDigit(Decimal(n)[i]);
  }

  lemma LongerMiddle(a: string, b: string, c: string, c': string, e: string, e': string)
    requires |c'| <= |c| && |e'| <= |e| && (|c'| == |c| ==> c' == c) && (|e'| == |e| ==> e' == e)
    ensures |a + c' + e' + b| <= |a + c + e + b|
    ensures |a + c' + e' + b| == |a + c + e + b| ==> a + c' + e' + b == a + c + e + b
  {
  }

  /** A request is printed as its shortest spelling. */
  lemma PrintedRequestIsShortest(r: Request, b: string)
    requires ValidRequest(r)
    ensures Spells(EncodeRequest(r), r)
    ensures Spells(b, r) ==> |EncodeRequest(r)| <= |b| && (|b| == |EncodeRequest(r)| ==> b == EncodeRequest(r))
  {
    if !r.Ping? { KeyIsValid(r.key); }
    if r.Set? {
      DecimalIsLength(|r.value|);
      PrintedSet(r.key, r.value);
      if d, e :| SetSpelling(b, r.key, r.value, d, e) {
        DecimalIsShortest(d, |r.value|);
        ShorterSet(r.key, r.value, d, e);
      }
    }
  }

  lemma PrintedSet(k: Key, v: Value)
    requires KeyBytes(k) && Length(Decimal(|v|), |v|)
    ensures SetSpelling(EncodeRequest(Set(k, v)), k, v, Decimal(|v|), "\n")
  {
  }

  lemma ShorterSet(k: Key, v: Value, d: string, e: string)
    requires LineEnd(e) && |Decimal(|v|)| <= |d| && (|d| == |Decimal(|v|)| ==> d == Decimal(|v|))
    ensures var b, p := "SET " + k + " " + d + e + v + "\n", EncodeRequest(Set(k, v)); |p| <= |b| && (|b| == |p| ==> b == p)
  {
    LongerMiddle("SET " + k + " ", v + "\n", d, Decimal(|v|), e, "\n");
    assert "SET " + k + " " + d + e + v + "\n" == "SET " + k + " " + d + e + (v + "\n");
    assert EncodeRequest(Set(k, v)) == "SET " + k + " " + Decimal(|v|) + "\n" + (v + "\n");
  }

  /** A sendable response is printed as its shortest spelling, except that an empty error message keeps its space. */
  lemma PrintedResponseIsShortest(r: Response, b: string)
    requires Sendable(r)
    ensures SpellsReply(EncodeResponse(r), r)
    ensures SpellsReply(b, r) && r != Error("") ==>
              |EncodeResponse(r)| <= |b| && (|b| == |EncodeResponse(r)| ==> b == EncodeResponse(r))
    ensures EncodeResponse(Error("")) == "ERROR \n"
  {
    if r.ValueIs? {
      DecimalIsLength(|r.value|);
      PrintedValue(r.value);
      if d, e :| ValueBytes(b, d, e, r.value, '\n') {
        DecimalIsShortest(d, |r.value|);
        ShorterValue(r.value, d, e);
      }
    } else {
      PrintedLine(r);
      if SpellsReply(b, r) && r != Error("") {
        var body, e :| StartsLine(b, body, e) && b == body + e && PlainReply(body, r);
        assert body == HeadOf(r);
      }
    }
  }

  lemma PrintedLine(r: Response)
    requires Sendable(r) && !r.ValueIs?
    ensures EncodeResponse(r) == HeadOf(r) + "\n" && SpellsReply(EncodeResponse(r), r)
  {
    EncodeIsHead(r);
    HeadIsPlain(r);
    assert EncodeResponse(r) == HeadOf(r) + "\n";
    assert StartsLine(EncodeResponse(r), HeadOf(r), "\n") && PlainReply(HeadOf(r), r);
  }

  lemma PrintedValue(v: Value)
    requires Length(Decimal(|v|), |v|)
    ensures ValueBytes(EncodeResponse(ValueIs(v)), Decimal(|v|), "\n", v, '\n')
  {
  }

  lemma ShorterValue(v: Value, d: string, e: string)
    requires LineEnd(e) && |Decimal(|v|)| <= |d| && (|d| == |Decimal(|v|)| ==> d == Decimal(|v|))
    ensures var b, p := "VALUE " + d + e + v + "\n", EncodeResponse(ValueIs(v)); |p| <= |b| && (|b| == |p| ==> b == p)
  {
    LongerMiddle("VALUE ", v + "\n", d, Decimal(|v|), e, "\n");
    assert "VALUE " + d + e + v + "\n" == "VALUE " + d + e + (v + "\n");
    assert EncodeResponse(ValueIs(v)) == "VALUE " + Decimal(|v|) + "\n" + (v + "\n");
  }
}
