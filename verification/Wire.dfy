/** The wire protocol: the printers, and one call of each incremental parser as a function of the bytes it has
    buffered. */
module Wire {
  import opened KvSpec

  const MAX_KEY_LEN := 250
  const MAX_VALUE_LEN := 1024 * 1024
  const MAX_COMMAND_LINE_LEN := 4 + MAX_KEY_LEN + 1 + 10
  const MAX_RESPONSE_LINE_LEN := 4096

  // ---------- Printers ----------

  function EncodeRequest(r: Request): string {
    match r
    case Get(k) => "GET " + k + "\n"
    case Delete(k) => "DELETE " + k + "\n"
    case Set(k, v) => "SET " + k + " " + Decimal(|v|) + "\n" + v + "\n"
    case Ping => "PING\n"
  }

  function EncodeResponse(r: Response): string {
    match r
    case ValueIs(v) => "VALUE " + Decimal(|v|) + "\n" + v + "\n"
    case NotFound => "NOT_FOUND\n"
    case Ok => "OK\n"
    case Deleted => "DELETED\n"
    case Error(m) => "ERROR " + m + "\n"
    case Pong => "PONG\n"
  }

  // ---------- Lines and tokens ----------

  /** The first position of `c`, or the length when there is none. */
  function IndexOf(s: string, c: char): (i: nat)
    ensures i <= |s| && (i < |s| ==> s[i] == c)
    ensures forall j :: 0 <= j < i ==> s[j] != c
  {
    if s == "" || s[0] == c then 0 else 1 + IndexOf(s[1..], c)
  }

  function StripCr(line: string): string {
    if line != "" && line[|line| - 1] == '\r' then line[..|line| - 1] else line
  }

  function Tokens(line: string): (ts: seq<string>)
    ensures |ts| > 0
  {
    var i := IndexOf(line, ' ');
    if i == |line| then [line] else [line[..i]] + Tokens(line[i + 1..])
  }

  predicate ValidKey(k: string) {
    0 < |k| <= MAX_KEY_LEN && forall i :: 0 <= i < |k| ==> k[i] > ' '
  }

  predicate IsDigit(c: char) {
    '0' <= c <= '9'
  }

  function DigitValue(c: char): nat
    requires IsDigit(c)
  {
    c as int - '0' as int
  }

  function NumberOf(s: string): nat
    requires forall i :: 0 <= i < |s| ==> IsDigit(s[i])
  {
    if s == "" then 0 else 10 * NumberOf(s[..|s| - 1]) + DigitValue(s[|s| - 1])
  }

  function ParseLength(s: string): Option<nat> {
    if s == "" || |s| > 10 || !(forall i :: 0 <= i < |s| ==> IsDigit(s[i])) then None
    else if NumberOf(s) > MAX_VALUE_LEN then None
    else Some(NumberOf(s))
  }

  // ---------- One parser call ----------

  /** What a call yields: an item and the number of bytes dropped from the front of the buffer; nothing yet; or the
      overlong-line error, which drops nothing. */
  datatype Frame<T> = Incomplete | Overlong | Took(item: T, n: nat)

  datatype Item<T> = Parsed(msg: T) | Bad(message: string)

  /** What a line says: a complete item, or a message still waiting for its value bytes. */
  datatype Line<T> = Whole(item: Item<T>) | NeedsValue(len: nat, make: Value -> T)

  function CommandLine(line: string): Line<Request> {
    Command(Tokens(line))
  }

  function Command(ts: seq<string>): Line<Request>
    requires |ts| > 0
  {
    var cmd := ts[0];
    if cmd == "" then Whole(Bad("empty command"))
    else if cmd == "GET" || cmd == "DELETE" then
      if |ts| != 2 || !ValidKey(ts[1]) then Whole(Bad("malformed " + cmd + " request"))
      else Whole(Parsed(if cmd == "GET" then Get(ts[1]) else Delete(ts[1])))
    else if cmd == "PING" then
      if |ts| != 1 then Whole(Bad("malformed PING request")) else Whole(Parsed(Ping))
    else if cmd == "SET" then
      if |ts| != 3 || !ValidKey(ts[1]) || ParseLength(ts[2]).None? then Whole(Bad("malformed SET request"))
      else NeedsValue(ParseLength(ts[2]).value, v => Set(ts[1], v))
    else Whole(Bad("unknown command: " + cmd))
  }

  function ResponseLine(line: string): Line<Response> {
    if line == "OK" then Whole(Parsed(Ok))
    else if line == "DELETED" then Whole(Parsed(Deleted))
    else if line == "NOT_FOUND" then Whole(Parsed(NotFound))
    else if line == "PONG" then Whole(Parsed(Pong))
    else if line == "ERROR" || "ERROR " <= line then Whole(Parsed(Error(if |line| > 6 then line[6..] else "")))
    else if "VALUE " <= line then
      match ParseLength(line[6..])
      case None => Whole(Bad("malformed VALUE response"))
      case Some(n) => NeedsValue(n, v => ValueIs(v))
    else Whole(Bad("unknown response: " + line))
  }

  /** Behind a complete line that says `l`: a message with a value waits for the value bytes and the LF behind them. */
  function LineFrame<T>(buf: string, end: nat, l: Line<T>): (f: Frame<Item<T>>)
    requires end < |buf|
    ensures f.Took? ==> end < f.n <= |buf|
  {
    match l
    case Whole(item) => Took(item, end + 1)
    case NeedsValue(len, make) =>
      var needed := end + 1 + len + 1;
      if |buf| < needed then Incomplete
      else if buf[end + 1 + len] != '\n' then Took(Bad("expected newline after value"), needed)
      else Took(Parsed(make(buf[end + 1..end + 1 + len])), needed)
  }

  /** Both parsers: find the LF and look at the line. */
  function FrameBy<T>(buf: string, max: nat, lineOf: string -> Line<T>): (f: Frame<Item<T>>)
    ensures f.Took? ==> 0 < f.n <= |buf| && IndexOf(buf, '\n') < f.n
  {
    var end := IndexOf(buf, '\n');
    if end == |buf| then
      if |buf| > max then Overlong else Incomplete
    else LineFrame(buf, end, lineOf(StripCr(buf[..end])))
  }

  function RequestFrame(buf: string): Frame<Item<Request>> {
    FrameBy(buf, MAX_COMMAND_LINE_LEN, CommandLine)
  }

  function ResponseFrame(buf: string): Frame<Item<Response>> {
    FrameBy(buf, MAX_RESPONSE_LINE_LEN, ResponseLine)
  }

  // ---------- The frame depends on the bytes it takes, and on nothing behind them ----------

  lemma {:induction false} IndexOfIs(s: string, c: char, i: nat)
    requires i < |s| && s[i] == c && forall j :: 0 <= j < i ==> s[j] != c
    ensures IndexOf(s, c) == i
  {
  }

  lemma FrameIgnoresRest<T>(a: string, b: string, max: nat, lineOf: string -> Line<T>)
    requires FrameBy(a, max, lineOf).Took?
    ensures FrameBy(a + b, max, lineOf) == FrameBy(a, max, lineOf)
  {
    var end := IndexOf(a, '\n');
    IndexOfIs(a + b, '\n', end);
    assert (a + b)[..end] == a[..end];
    var n := FrameBy(a, max, lineOf).n;
    if n > end + 1 {
      assert (a + b)[end + 1..n - 1] == a[end + 1..n - 1];
    }
  }

  lemma FrameNeedsOnlyItself<T>(a: string, max: nat, lineOf: string -> Line<T>)
    requires FrameBy(a, max, lineOf).Took?
    ensures FrameBy(a[..FrameBy(a, max, lineOf).n], max, lineOf) == FrameBy(a, max, lineOf)
  {
    var end, n := IndexOf(a, '\n'), FrameBy(a, max, lineOf).n;
    IndexOfIs(a[..n], '\n', end);
    assert a[..n][..end] == a[..end];
    if n > end + 1 {
      assert a[..n][end + 1..n - 1] == a[end + 1..n - 1];
    }
  }
}
