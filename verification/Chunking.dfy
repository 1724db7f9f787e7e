/** Chunking independence: how an incremental parser, drained after every read, sees a byte stream.  The parser call is
    any function that frames a buffer the way both parsers of the protocol do. */
module Chunking {
  import opened Wire

  type Framer<T> = string -> Frame<Item<T>>

  /** What one call does with the buffer `a`: an item contains its line's LF and depends on its own bytes only, and a
      line without LF waits until it is longer than `max`. */
  predicate FramesWell<T(==)>(f: Framer<T>, max: nat, a: string) {
    && (f(a).Took? ==> 0 < f(a).n <= |a| && IndexOf(a, '\n') < f(a).n && f(a[..f(a).n]) == f(a))
    && (f(a).Overlong? <==> IndexOf(a, '\n') == |a| > max)
    && (IndexOf(a, '\n') == |a| <= max ==> f(a).Incomplete?)
  }

  predicate IgnoresRest<T(==)>(f: Framer<T>, a: string, b: string) {
    f(a).Took? ==> f(a + b) == f(a)
  }

  ghost predicate Framing<T>(f: Framer<T>, max: nat) {
    (forall a :: FramesWell(f, max, a)) && (forall a, b :: IgnoresRest(f, a, b))
  }

  /** What draining yields: the items in order and the bytes left over; or, when an unterminated line is longer than
      the limit, the items before it and then the same error forever, because that error drops no bytes. */
  datatype Drained<T> = Drained(outs: seq<Item<T>>, rest: string) | Stuck(outs: seq<Item<T>>)

  function Prepend<T>(o: seq<Item<T>>, d: Drained<T>): Drained<T> {
    match d
    case Drained(outs, rest) => Drained(o + outs, rest)
    case Stuck(outs) => Stuck(o + outs)
  }

  function Drain<T>(f: Framer<T>, max: nat, buf: string): Drained<T>
    requires Framing(f, max)
    decreases |buf|
  {
    assert FramesWell(f, max, buf);
    match f(buf)
    case Incomplete => Drained([], buf)
    case Overlong => Stuck([])
    case Took(out, n) => Prepend([out], Drain(f, max, buf[n..]))
  }

  /** Read, feed and drain, chunk after chunk.  A stuck drain never reads again. */
  function FeedAll<T>(f: Framer<T>, max: nat, d: Drained<T>, chunks: seq<string>): Drained<T>
    requires Framing(f, max)
    decreases |chunks|
  {
    if d.Stuck? || chunks == [] then d
    else FeedAll(f, max, Prepend(d.outs, Drain(f, max, d.rest + chunks[0])), chunks[1..])
  }

  function Flatten(chunks: seq<string>): string {
    if chunks == [] then "" else chunks[0] + Flatten(chunks[1..])
  }

  /** Chunks a 4096-byte read buffer can deliver. */
  predicate Reads(chunks: seq<string>) {
    forall i :: 0 <= i < |chunks| ==> 0 < |chunks[i]| <= 4096
  }

  /** Every LF-terminated line of the stream, as the parser meets them, is at most `max` bytes long before its LF,
      counting a CR. */
  predicate ShortLines<T>(f: Framer<T>, max: nat, buf: string)
    requires Framing(f, max)
    decreases |buf|
  {
    assert FramesWell(f, max, buf);
    && (IndexOf(buf, '\n') == |buf| || IndexOf(buf, '\n') <= max)
    && (f(buf).Took? ==> ShortLines(f, max, buf[f(buf).n..]))
  }

  // ---------- Draining part of a stream ----------

  lemma PrependTwice<T>(a: seq<Item<T>>, b: seq<Item<T>>, d: Drained<T>)
    ensures Prepend(a, Prepend(b, d)) == Prepend(a + b, d)
  {
    assert a + (b + d.outs) == (a + b) + d.outs;
  }

  lemma {:induction false} DrainAppend<T>(f: Framer<T>, max: nat, a: string, b: string)
    requires Framing(f, max)
    requires Drain(f, max, a).Drained?
    ensures var d := Drain(f, max, a); Drain(f, max, a + b) == Prepend(d.outs, Drain(f, max, d.rest + b))
    ensures var d := Drain(f, max, a); ShortLines(f, max, a + b) ==> ShortLines(f, max, d.rest + b)
    ensures f(Drain(f, max, a).rest).Incomplete?
    decreases |a|
  {
    assert FramesWell(f, max, a) && IgnoresRest(f, a, b);
    if f(a).Took? {
      var n := f(a).n;
      assert (a + b)[n..] == a[n..] + b;
      DrainAppend(f, max, a[n..], b);
      var d := Drain(f, max, a[n..]);
      PrependTwice([f(a).item], d.outs, Drain(f, max, d.rest + b));
    } else {
      assert Prepend([], Drain(f, max, a + b)) == Drain(f, max, a + b);
    }
  }

  lemma NoLineFeed(a: string, b: string)
    requires IndexOf(a, '\n') == |a|
    ensures IndexOf(a + b, '\n') >= |a|
  {
    assert forall j :: 0 <= j < |a| ==> (a + b)[j] == a[j];
  }

  lemma {:induction false} StuckAppend<T>(f: Framer<T>, max: nat, a: string, b: string)
    requires Framing(f, max)
    requires Drain(f, max, a).Stuck? && ShortLines(f, max, a + b)
    ensures Drain(f, max, a + b) == Drain(f, max, a)
    decreases |a|
  {
    assert FramesWell(f, max, a) && IgnoresRest(f, a, b);
    match f(a)
    case Overlong =>
      NoLineFeed(a, b);
      assert FramesWell(f, max, a + b);
    case Took(out, n) =>
      assert (a + b)[n..] == a[n..] + b;
      StuckAppend(f, max, a[n..], b);
  }

  lemma {:induction false} FeedIsDrain<T>(f: Framer<T>, max: nat, outs: seq<Item<T>>, rest: string, chunks: seq<string>)
    requires Framing(f, max)
    requires f(rest).Incomplete? && ShortLines(f, max, rest + Flatten(chunks))
    ensures FeedAll(f, max, Drained(outs, rest), chunks) == Prepend(outs, Drain(f, max, rest + Flatten(chunks)))
    decreases |chunks|
  {
    if chunks == [] {
      assert rest + "" == rest;
    } else {
      var a, b := rest + chunks[0], Flatten(chunks[1..]);
      assert rest + Flatten(chunks) == a + b;
      match Drain(f, max, a)
      case Drained(o, r) =>
        DrainAppend(f, max, a, b);
        FeedIsDrain(f, max, outs + o, r, chunks[1..]);
        PrependTwice(outs, o, Drain(f, max, r + b));
      case Stuck(o) =>
        StuckAppend(f, max, a, b);
    }
  }

  /** However a stream with short command lines is cut up, the parser yields the same items in the same order and
      keeps the same bytes. */
  lemma AnySplitIsWhole<T>(f: Framer<T>, max: nat, stream: string, chunks: seq<string>)
    requires Framing(f, max)
    requires ShortLines(f, max, stream) && Flatten(chunks) == stream
    ensures FeedAll(f, max, Drained([], ""), chunks) == Drain(f, max, stream)
  {
    assert "" + stream == stream && FramesWell(f, max, "");
    FeedIsDrain(f, max, [], "", chunks);
    assert Prepend([], Drain(f, max, stream)) == Drain(f, max, stream);
  }

  // ---------- The condition is exact ----------

  function Bytes(s: string): seq<string> {
    seq(|s|, i requires 0 <= i < |s| => [s[i]])
  }

  lemma {:induction false} FlattenBytes(s: string)
    ensures Flatten(Bytes(s)) == s
  {
    if s != "" {
      assert Bytes(s)[1..] == Bytes(s[1..]);
      FlattenBytes(s[1..]);
    }
  }

  lemma {:induction false} FeedInTwo<T>(f: Framer<T>, max: nat, d: Drained<T>, a: seq<string>, b: seq<string>)
    requires Framing(f, max)
    ensures FeedAll(f, max, d, a + b) == FeedAll(f, max, FeedAll(f, max, d, a), b)
    decreases |a|
  {
    if a == [] {
      assert a + b == b;
    } else {
      assert (a + b)[1..] == a[1..] + b;
      if d.Drained? {
        FeedInTwo(f, max, Prepend(d.outs, Drain(f, max, d.rest + a[0])), a[1..], b);
      }
    }
  }

  /** The first overlong line, cut before its LF. */
  lemma {:induction false} CutOverlongLine<T>(f: Framer<T>, max: nat, s: string) returns (p: nat)
    requires Framing(f, max) && !ShortLines(f, max, s)
    ensures p <= |s| && ShortLines(f, max, s[..p])
    ensures Drain(f, max, s[..p]).Stuck? && Drain(f, max, s[..p]) != Drain(f, max, s)
    decreases |s|
  {
    assert FramesWell(f, max, s);
    var end := IndexOf(s, '\n');
    if end < |s| && end > max {
      p := max + 1;
      assert FramesWell(f, max, s[..p]);
    } else {
      var n := f(s).n;
      var q := CutOverlongLine(f, max, s[n..]);
      p := n + q;
      assert s[..n] + s[n..p] == s[..p] && s[..p][n..] == s[n..][..q];
      assert IgnoresRest(f, s[..n], s[n..p]);
      IndexOfIs(s[..p], '\n', end);
      if Prepend([f(s).item], Drain(f, max, s[n..])) == Prepend([f(s).item], Drain(f, max, s[n..][..q])) {
        PrependInjective(f(s).item, Drain(f, max, s[n..]), Drain(f, max, s[n..][..q]));
      }
    }
  }

  lemma PrependInjective<T>(o: Item<T>, a: Drained<T>, b: Drained<T>)
    requires Prepend([o], a) == Prepend([o], b)
    ensures a == b
  {
    assert a.outs == ([o] + a.outs)[1..] && b.outs == ([o] + b.outs)[1..];
  }

  ghost predicate ChunkingIndependent<T>(f: Framer<T>, max: nat, stream: string)
    requires Framing(f, max)
  {
    forall chunks :: Reads(chunks) && Flatten(chunks) == stream ==>
      FeedAll(f, max, Drained([], ""), chunks) == Drain(f, max, stream)
  }

  /** A stream with an overlong line, arriving a byte at a time, gets the server stuck, and differs from the whole. */
  lemma OverlongGetsStuck<T>(f: Framer<T>, max: nat, stream: string)
    requires Framing(f, max) && !ShortLines(f, max, stream)
    ensures var d := FeedAll(f, max, Drained([], ""), Bytes(stream)); d.Stuck? && d != Drain(f, max, stream)
  {
    var p := CutOverlongLine(f, max, stream);
    FlattenBytes(stream[..p]);
    AnySplitIsWhole(f, max, stream[..p], Bytes(stream[..p]));
    assert Bytes(stream) == Bytes(stream[..p]) + Bytes(stream[p..]);
    FeedInTwo(f, max, Drained([], ""), Bytes(stream[..p]), Bytes(stream[p..]));
  }

  lemma BytesAreReads(s: string)
    ensures Reads(Bytes(s)) && Flatten(Bytes(s)) == s
  {
    FlattenBytes(s);
  }

  /** The result is independent of how the network cuts up the stream if and only if every complete command line is
      short.  The other streams get a server stuck when they arrive a byte at a time. */
  lemma ChunkingIffShortLines<T>(f: Framer<T>, max: nat, stream: string)
    requires Framing(f, max)
    ensures ChunkingIndependent(f, max, stream) <==> ShortLines(f, max, stream)
  {
    if ShortLines(f, max, stream) {
      forall chunks | Reads(chunks) && Flatten(chunks) == stream
        ensures FeedAll(f, max, Drained([], ""), chunks) == Drain(f, max, stream)
      {
        AnySplitIsWhole(f, max, stream, chunks);
      }
    } else {
      BytesAreReads(stream);
      OverlongGetsStuck(f, max, stream);
    }
  }

  // ---------- When draining returns ----------

  /** Behind the last complete message of the buffer there is a command line that is complete, or at most `max`
      bytes. */
  predicate LastLineFits<T>(f: Framer<T>, max: nat, buf: string)
    requires Framing(f, max)
    decreases |buf|
  {
    assert FramesWell(f, max, buf);
    if f(buf).Took? then LastLineFits(f, max, buf[f(buf).n..]) else IndexOf(buf, '\n') < |buf| || |buf| <= max
  }

  /** Every command line of the stream, the unterminated last one included, has at most `max` bytes. */
  predicate LinesFit<T>(f: Framer<T>, max: nat, buf: string)
    requires Framing(f, max)
    decreases |buf|
  {
    assert FramesWell(f, max, buf);
    IndexOf(buf, '\n') <= max && (f(buf).Took? ==> LinesFit(f, max, buf[f(buf).n..]))
  }

  /** One drain of a buffer returns if and only if its last line fits. */
  lemma {:induction false} DrainReturnsIff<T>(f: Framer<T>, max: nat, buf: string)
    requires Framing(f, max)
    ensures Drain(f, max, buf).Drained? <==> LastLineFits(f, max, buf)
    decreases |buf|
  {
    assert FramesWell(f, max, buf);
    if f(buf).Took? { DrainReturnsIff(f, max, buf[f(buf).n..]); }
  }

  lemma {:induction false} LinesFitParts<T>(f: Framer<T>, max: nat, buf: string)
    requires Framing(f, max)
    ensures LinesFit(f, max, buf) <==> ShortLines(f, max, buf) && LastLineFits(f, max, buf)
    decreases |buf|
  {
    assert FramesWell(f, max, buf);
    if f(buf).Took? { LinesFitParts(f, max, buf[f(buf).n..]); }
  }

  /** After each of the reads `chunks`, behind what was read before, the last line fits. */
  predicate PrefixesFit<T>(f: Framer<T>, max: nat, before: string, chunks: seq<string>)
    requires Framing(f, max)
    decreases |chunks|
  {
    chunks == [] || (LastLineFits(f, max, before + chunks[0]) && PrefixesFit(f, max, before + chunks[0], chunks[1..]))
  }

  lemma {:induction false} FeedReturnsAfter<T>(f: Framer<T>, max: nat, outs: seq<Item<T>>, before: string, o: seq<Item<T>>,
                                               rest: string, chunks: seq<string>)
    requires Framing(f, max) && Drain(f, max, before) == Drained(o, rest)
    ensures FeedAll(f, max, Drained(outs, rest), chunks).Drained? <==> PrefixesFit(f, max, before, chunks)
    decreases |chunks|
  {
    if chunks != [] {
      var next := before + chunks[0];
      DrainAppend(f, max, before, chunks[0]);
      DrainReturnsIff(f, max, next);
      match Drain(f, max, rest + chunks[0])
      case Drained(o', r) => FeedReturnsAfter(f, max, outs + o', next, o + o', r, chunks[1..]);
      case Stuck(_) =>
    }
  }

  /** A sequence of reads, each drained, returns if and only if after each of them the last line fits. */
  lemma FeedReturnsIff<T>(f: Framer<T>, max: nat, buffer: string, chunks: seq<string>)
    requires Framing(f, max)
    ensures FeedAll(f, max, Drained([], buffer), chunks).Drained? <==> PrefixesFit(f, max, buffer, chunks)
  {
    if chunks != [] {
      var next := buffer + chunks[0];
      DrainReturnsIff(f, max, next);
      match Drain(f, max, next)
      case Drained(o, r) =>
        assert Prepend([], Drain(f, max, next)) == Drained(o, r);
        FeedReturnsAfter(f, max, o, next, o, r, chunks[1..]);
      case Stuck(_) =>
    }
  }

  /** Arriving a byte at a time is the worst case: it returns if and only if every line fits. */
  lemma ByteByByteReturnsIff<T>(f: Framer<T>, max: nat, stream: string)
    requires Framing(f, max)
    ensures FeedAll(f, max, Drained([], ""), Bytes(stream)).Drained? <==> LinesFit(f, max, stream)
  {
    LinesFitParts(f, max, stream);
    DrainReturnsIff(f, max, stream);
    FlattenBytes(stream);
    if ShortLines(f, max, stream) {
      AnySplitIsWhole(f, max, stream, Bytes(stream));
    } else {
      OverlongGetsStuck(f, max, stream);
    }
  }

  ghost predicate AlwaysReturns<T>(f: Framer<T>, max: nat, stream: string)
    requires Framing(f, max)
  {
    forall chunks :: Reads(chunks) && Flatten(chunks) == stream ==> FeedAll(f, max, Drained([], ""), chunks).Drained?
  }

  /** The drain loops return however the network cuts up the stream if and only if every command line of it, the
      unterminated last one included, has at most `max` bytes. */
  lemma AlwaysReturnsIff<T>(f: Framer<T>, max: nat, stream: string)
    requires Framing(f, max)
    ensures AlwaysReturns(f, max, stream) <==> LinesFit(f, max, stream)
  {
    ByteByByteReturnsIff(f, max, stream);
    BytesAreReads(stream);
    if LinesFit(f, max, stream) {
      LinesFitParts(f, max, stream);
      DrainReturnsIff(f, max, stream);
      forall chunks | Reads(chunks) && Flatten(chunks) == stream ensures FeedAll(f, max, Drained([], ""), chunks).Drained? {
        AnySplitIsWhole(f, max, stream, chunks);
      }
    }
  }

  // ---------- Draining ends ----------

  function LineFeeds(s: string): nat {
    if s == "" then 0 else (if s[0] == '\n' then 1 else 0) + LineFeeds(s[1..])
  }

  lemma {:induction false} LineFeedsSplit(a: string, b: string)
    ensures LineFeeds(a + b) == LineFeeds(a) + LineFeeds(b)
  {
    if a == "" {
      assert a + b == b;
    } else {
      assert (a + b)[1..] == a[1..] + b;
      LineFeedsSplit(a[1..], b);
    }
  }

  lemma {:induction false} HasLineFeed(a: string, i: nat)
    requires i < |a| && a[i] == '\n'
    ensures LineFeeds(a) > 0
  {
    if i > 0 {
      HasLineFeed(a[1..], i - 1);
    }
  }

  /** A drain yields at most one item per LF in the buffer. */
  lemma {:induction false} OneItemPerLineFeed<T>(f: Framer<T>, max: nat, buf: string)
    requires Framing(f, max)
    ensures |Drain(f, max, buf).outs| <= LineFeeds(buf)
    decreases |buf|
  {
    assert FramesWell(f, max, buf);
    match f(buf)
    case Took(out, n) =>
      assert buf == buf[..n] + buf[n..];
      LineFeedsSplit(buf[..n], buf[n..]);
      HasLineFeed(buf[..n], IndexOf(buf, '\n'));
      OneItemPerLineFeed(f, max, buf[n..]);
    case _ =>
  }
}
