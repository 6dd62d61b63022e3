/** What the framing promises: self-synchronisation, agreement of the two
    decoders, and an exact round trip under any chunking. */
module WireProperties {
  import opened Types
  import opened Codec
  import opened StreamParser
  import BigEndian

  ghost predicate OnlyErrors(events: seq<Event>) {
    forall e :: e in events ==> e.ErrorEvent?
  }

  function FrameCount(events: seq<Event>): nat {
    if events == [] then 0 else (if events[0].FrameEvent? then 1 else 0) + FrameCount(events[1..])
  }

  lemma {:induction false} FrameCountConcat(a: seq<Event>, b: seq<Event>)
    ensures FrameCount(a + b) == FrameCount(a) + FrameCount(b)
  {
    if a == [] {
      assert a + b == b;
    } else {
      FrameCountConcat(a[1..], b);
      assert (a + b)[1..] == a[1..] + b;
    }
  }

  lemma {:induction false} NoFrames(events: seq<Event>)
    requires OnlyErrors(events)
    ensures FrameCount(events) == 0
  {
    if events != [] {
      assert events[0] in events;
      NoFrames(events[1..]);
    }
  }

  // ---------- An escaped body, state by state ----------

  /** The body fits when appended to a buffer that already holds n bytes. */
  predicate FitsAfter(n: nat, body: seq<byte>, max: nat) {
    forall i :: 0 <= i < |body| && n + i >= max ==> body[i] == DLE
  }

  lemma FeedPair(p: Parser, max: nat, a: byte, b: byte)
    ensures Feed(p, max, [a, b]) == Fed(Step(Step(p, max, a).parser, max, b).parser,
                                        Step(p, max, a).events + Step(Step(p, max, a).parser, max, b).events)
  {
    assert [a, b] == [a] + [b];
    FeedConcat(p, max, [a], [b]);
    FeedOne(p, max, a);
    FeedOne(Step(p, max, a).parser, max, b);
  }

  lemma EscapedByte(p: Parser, max: nat, b: byte)
    ensures p.state == Idle ==>
              Feed(p, max, EscapeByte(b)).parser == p && OnlyErrors(Feed(p, max, EscapeByte(b)).events)
    ensures p.state == InFrame && (b == DLE || |p.buffer| < max) ==>
              Feed(p, max, EscapeByte(b)) == Fed(Parser(InFrame, p.buffer + [b]), [])
    ensures p.state == InFrame && b != DLE && |p.buffer| >= max ==>
              Feed(p, max, EscapeByte(b)) == Fed(FRESH, [ErrorEvent(BufferExceeded)])
  {
    if b == DLE {
      FeedPair(p, max, DLE, DLE);
    } else {
      FeedOne(p, max, b);
    }
  }

  /** Outside a frame an escaped body is noise: errors only, and the parser stays where it was. */
  lemma {:induction false} EscapedOutside(p: Parser, max: nat, body: seq<byte>)
    requires p.state == Idle
    ensures Feed(p, max, Escape(body)).parser == p
    ensures OnlyErrors(Feed(p, max, Escape(body)).events)
  {
    if body != [] {
      FeedConcat(p, max, EscapeByte(body[0]), Escape(body[1..]));
      EscapedByte(p, max, body[0]);
      EscapedOutside(p, max, body[1..]);
    }
  }

  /** Inside a frame it is buffered unescaped, or overflows and the rest is noise. */
  lemma {:induction false} EscapedInside(p: Parser, max: nat, body: seq<byte>)
    requires p.state == InFrame
    ensures FitsAfter(|p.buffer|, body, max) ==>
              Feed(p, max, Escape(body)) == Fed(Parser(InFrame, p.buffer + body), [])
    ensures !FitsAfter(|p.buffer|, body, max) ==>
              && Feed(p, max, Escape(body)).parser.state == Idle
              && OnlyErrors(Feed(p, max, Escape(body)).events)
    decreases body
  {
    hide Step, ParseBody, Feed, FitsAfter, EscapeByte;
    if body == [] {
      assert p.buffer + body == p.buffer;
      NothingInside(p, max);
    } else {
      var b, rest := body[0], body[1..];
      FeedConcat(p, max, EscapeByte(b), Escape(rest));
      EscapedByte(p, max, b);
      FitsSplit(|p.buffer|, body, max);
      if b == DLE || |p.buffer| < max {
        EscapedInside(Parser(InFrame, p.buffer + [b]), max, rest);
        assert p.buffer + [b] + rest == p.buffer + body;
      } else {
        EscapedOutside(FRESH, max, rest);
      }
    }
  }

  lemma NothingInside(p: Parser, max: nat)
    ensures Feed(p, max, []) == Fed(p, []) && FitsAfter(|p.buffer|, [], max)
  {
  }

  lemma FitsSplit(n: nat, body: seq<byte>, max: nat)
    requires body != []
    ensures FitsAfter(n, body, max) <==> (body[0] == DLE || n < max) && FitsAfter(n + 1, body[1..], max)
  {
    if FitsAfter(n, body, max) {
      forall i | 0 <= i < |body[1..]| && n + 1 + i >= max ensures body[1..][i] == DLE {
        assert body[i + 1] == DLE;
      }
    }
    if (body[0] == DLE || n < max) && FitsAfter(n + 1, body[1..], max) {
      forall i | 0 <= i < |body| && n + i >= max ensures body[i] == DLE {
        if i > 0 { assert body[1..][i - 1] == DLE; }
      }
    }
  }

  // ---------- One complete frame, from every state ----------

  lemma FeedWrap(p: Parser, max: nat, body: seq<byte>)
    ensures
      var entry := Feed(p, max, [DLE, STX]);
      var filled := Feed(entry.parser, max, Escape(body));
      var closed := Feed(filled.parser, max, [DLE, ETX]);
      Feed(p, max, Wrap(body)) == Fed(closed.parser, entry.events + filled.events + closed.events)
  {
    FeedConcat(p, max, [DLE, STX] + Escape(body), [DLE, ETX]);
    FeedConcat(p, max, [DLE, STX], Escape(body));
  }

  lemma Opening(p: Parser, max: nat)
    ensures
      var entry := Feed(p, max, [DLE, STX]);
      match p.state
      case Idle => entry == Fed(Parser(InFrame, []), [])
      case AfterDLE => entry.parser.state == Idle && OnlyErrors(entry.events)
      case InFrame => entry.parser.state == Idle && OnlyErrors(entry.events)
      case InFrameAfterDLE => entry.parser.state in {Idle, InFrame} && OnlyErrors(entry.events)
  {
    FeedPair(p, max, DLE, STX);
  }

  lemma Closing(p: Parser, max: nat)
    ensures p.state == InFrame ==> Feed(p, max, [DLE, ETX]) == Fed(FRESH, [Complete(p.buffer)])
    ensures p.state == Idle ==>
              Feed(p, max, [DLE, ETX]).parser == p && OnlyErrors(Feed(p, max, [DLE, ETX]).events)
  {
    FeedPair(p, max, DLE, ETX);
  }

  /** From Idle a body that fits comes out as exactly one event; one that does not is only errors. */
  lemma WrapFromIdle(p: Parser, max: nat, body: seq<byte>)
    requires p.state == Idle
    ensures Fits(body, max) ==> Feed(p, max, Wrap(body)) == Fed(FRESH, [Complete(body)])
    ensures !Fits(body, max) ==>
              && Feed(p, max, Wrap(body)).parser.state == Idle
              && OnlyErrors(Feed(p, max, Wrap(body)).events)
  {
    FeedWrap(p, max, body);
    Opening(p, max);
    EscapedInside(Parser(InFrame, []), max, body);
    assert [] + body == body;
    assert FitsAfter(0, body, max) <==> Fits(body, max);
    Closing(Feed(Parser(InFrame, []), max, Escape(body)).parser, max);
  }

  /** Self-synchronisation, one frame: whatever state and buffer the parser is
      in, a complete frame leaves it Idle and it emits at most one frame, no
      heartbeat. Only a parser interrupted right after a DLE inside a frame
      can emit a spurious one. */
  lemma Resynchronises(p: Parser, max: nat, body: seq<byte>)
    ensures Feed(p, max, Wrap(body)).parser.state == Idle
    ensures FrameCount(Feed(p, max, Wrap(body)).events) <= 1
    ensures HeartbeatEvent !in Feed(p, max, Wrap(body)).events
    ensures p.state in {AfterDLE, InFrame} ==> FrameCount(Feed(p, max, Wrap(body)).events) == 0
  {
    FeedWrap(p, max, body);
    Opening(p, max);
    var entry := Feed(p, max, [DLE, STX]);
    if entry.parser.state == Idle {
      EscapedOutside(entry.parser, max, body);
    } else {
      EscapedInside(entry.parser, max, body);
    }
    var filled := Feed(entry.parser, max, Escape(body));
    Closing(filled.parser, max);
    var closed := Feed(filled.parser, max, [DLE, ETX]);
    NoFrames(entry.events);
    NoFrames(filled.events);
    if OnlyErrors(closed.events) { NoFrames(closed.events); }
    FrameCountConcat(entry.events + filled.events, closed.events);
    FrameCountConcat(entry.events, filled.events);
  }

  /** What a parser interrupted there swallows: its buffer, the DLE STX it takes for data, and the body. */
  predicate Swallows(p: Parser, max: nat, body: seq<byte>) {
    |p.buffer| + 1 < max && FitsAfter(|p.buffer| + 2, body, max)
  }

  /** Exactly when such a parser emits a spurious frame, and which one. */
  lemma SpuriousFrameIff(p: Parser, max: nat, body: seq<byte>)
    requires p.state == InFrameAfterDLE
    ensures
      var swallowed := ParseBody(p.buffer + [DLE, STX] + body);
      var events := Feed(p, max, Wrap(body)).events;
      && (FrameCount(events) == 1 <==> Swallows(p, max, body) && swallowed.Ok?)
      && (FrameCount(events) == 1 ==> events == [FrameEvent(swallowed.value)])
  {
    hide ParseBody, Escape;
    FeedWrap(p, max, body);
    FeedPair(p, max, DLE, STX);
    var entry := Feed(p, max, [DLE, STX]);
    if |p.buffer| + 1 < max {
      assert p.buffer + [DLE] + [STX] == p.buffer + [DLE, STX];
      EscapedInside(entry.parser, max, body);
    } else {
      EscapedOutside(entry.parser, max, body);
    }
    var filled := Feed(entry.parser, max, Escape(body));
    ClosedCount(entry, filled, max);
    if Swallows(p, max, body) {
      Closing(filled.parser, max);
      assert entry.events == [] && filled.events == [];
      assert [] + [] + [Complete(filled.parser.buffer)] == [Complete(filled.parser.buffer)];
    }
  }

  /** A parser that has lost the rest of a frame after SYNC_START takes the next
      ServerSync for one with the key id 0x10020400. */
  const SYNC_START: seq<byte> := [DLE, STX, SERVER_SYNC, DLE]

  const PLAIN_SYNC: Frame := Frame(SERVER_SYNC, 0, TY_NULL, Null)

  lemma SpuriousFromFresh(max: nat)
    requires max >= 9
    ensures Body(PLAIN_SYNC) == [SERVER_SYNC, 0, 0, 0, 0, TY_NULL]
    ensures Feed(FRESH, max, SYNC_START + FrameBytes(PLAIN_SYNC)).events == [FrameEvent(Frame(SERVER_SYNC, 0x1002_0400, TY_NULL, Null))]
  {
    hide ParseBody, Escape;
    SyncBody();
    var p := Parser(InFrameAfterDLE, [SERVER_SYNC]);
    StartFed(max);
    SpuriousFrameIff(p, max, Body(PLAIN_SYNC));
    SwallowedSync();
    FeedConcat(FRESH, max, SYNC_START, FrameBytes(PLAIN_SYNC));
  }

  lemma StartFed(max: nat)
    requires max >= 9
    ensures Feed(FRESH, max, SYNC_START) == Fed(Parser(InFrameAfterDLE, [SERVER_SYNC]), [])
  {
    FeedPair(FRESH, max, DLE, STX);
    FeedPair(Parser(InFrame, []), max, SERVER_SYNC, DLE);
    FeedConcat(FRESH, max, [DLE, STX], [SERVER_SYNC, DLE]);
  }

  lemma SyncBody()
    ensures Encodable(PLAIN_SYNC) && Body(PLAIN_SYNC) == [SERVER_SYNC, 0, 0, 0, 0, TY_NULL]
  {
    assert BigEndian.Bytes(1, 0) == [0] && BigEndian.Bytes(2, 0) == [0, 0] && BigEndian.Bytes(3, 0) == [0, 0, 0];
    assert BigEndian.Bytes(4, 0) == [0, 0, 0, 0];
  }

  lemma SwallowedSync()
    ensures ParseBody([SERVER_SYNC] + [DLE, STX] + [SERVER_SYNC, 0, 0, 0, 0, TY_NULL]) == Ok(Frame(SERVER_SYNC, 0x1002_0400, TY_NULL, Null))
  {
    var body := [SERVER_SYNC] + [DLE, STX] + [SERVER_SYNC, 0, 0, 0, 0, TY_NULL];
    var id: seq<byte> := [DLE, STX, SERVER_SYNC, 0];
    assert body[1..5] == id;
    assert id[..3] == [DLE, STX, SERVER_SYNC] && id[..3][..2] == [DLE, STX] && id[..3][..2][..1] == [DLE];
    assert BigEndian.Value([DLE]) == 0x10 by { assert [DLE][..0] == []; }
    assert BigEndian.Value([DLE, STX]) == 0x1002;
    assert BigEndian.Value([DLE, STX, SERVER_SYNC]) == 0x10_0204;
    assert BigEndian.Value(id) == 0x1002_0400;
  }

  /** Counting over the three parts, when the first two emit errors at most. */
  lemma ClosedCount(entry: Fed, filled: Fed, max: nat)
    requires OnlyErrors(entry.events) && OnlyErrors(filled.events) && filled.parser.state in {Idle, InFrame}
    ensures
      var closed := Feed(filled.parser, max, [DLE, ETX]);
      FrameCount(entry.events + filled.events + closed.events)
        == if filled.parser.state == InFrame && Complete(filled.parser.buffer).FrameEvent? then 1 else 0
  {
    hide ParseBody;
    Closing(filled.parser, max);
    var closed := Feed(filled.parser, max, [DLE, ETX]);
    NoFrames(entry.events);
    NoFrames(filled.events);
    if OnlyErrors(closed.events) { NoFrames(closed.events); }
    FrameCountConcat(entry.events + filled.events, closed.events);
    FrameCountConcat(entry.events, filled.events);
  }

  // ---------- Streams of frames and heartbeats ----------

  datatype StreamItem = FrameItem(frame: Frame) | Heartbeat

  ghost predicate Deliverable(items: seq<StreamItem>, max: nat) {
    forall i :: i in items && i.FrameItem? ==> Encodable(i.frame) && Fits(Body(i.frame), max)
  }

  ghost function StreamBytes(items: seq<StreamItem>, max: nat): seq<byte>
    requires Deliverable(items, max)
  {
    if items == [] then []
    else (if items[0].FrameItem? then FrameBytes(items[0].frame) else [DLE, ENQ]) + StreamBytes(items[1..], max)
  }

  function Expected(items: seq<StreamItem>): seq<Event> {
    if items == [] then []
    else [if items[0].FrameItem? then FrameEvent(NormalFrame(items[0].frame)) else HeartbeatEvent] + Expected(items[1..])
  }

  lemma {:induction false} StreamFromIdle(p: Parser, max: nat, items: seq<StreamItem>)
    requires p.state == Idle && Deliverable(items, max)
    ensures Feed(p, max, StreamBytes(items, max)).parser.state == Idle
    ensures Feed(p, max, StreamBytes(items, max)).events == Expected(items)
    decreases items
  {
    if items != [] {
      var head := if items[0].FrameItem? then FrameBytes(items[0].frame) else [DLE, ENQ];
      FeedConcat(p, max, head, StreamBytes(items[1..], max));
      if items[0].FrameItem? {
        WrapFromIdle(p, max, Body(items[0].frame));
        ParseBodyOf(items[0].frame);
      } else {
        FeedPair(p, max, DLE, ENQ);
      }
      StreamFromIdle(Feed(p, max, head).parser, max, items[1..]);
    }
  }

  ghost function FeedChunks(p: Parser, max: nat, chunks: seq<seq<byte>>): Fed
    decreases chunks
  {
    if chunks == [] then Fed(p, [])
    else
      var first := Feed(p, max, chunks[0]);
      var rest := FeedChunks(first.parser, max, chunks[1..]);
      Fed(rest.parser, first.events + rest.events)
  }

  ghost function Flatten(chunks: seq<seq<byte>>): seq<byte> {
    if chunks == [] then [] else chunks[0] + Flatten(chunks[1..])
  }

  lemma {:induction false} ChunksAreInvisible(p: Parser, max: nat, chunks: seq<seq<byte>>)
    ensures FeedChunks(p, max, chunks) == Feed(p, max, Flatten(chunks))
    decreases chunks
  {
    if chunks != [] {
      ChunksAreInvisible(Feed(p, max, chunks[0]).parser, max, chunks[1..]);
      FeedConcat(p, max, chunks[0], Flatten(chunks[1..]));
    }
  }

  /** The stream round trip: any list of frames and heartbeats, cut anywhere,
      comes out as exactly that list, in normal form, and the parser is Idle. */
  lemma StreamRoundTrip(max: nat, items: seq<StreamItem>, chunks: seq<seq<byte>>)
    requires Deliverable(items, max) && Flatten(chunks) == StreamBytes(items, max)
    ensures FeedChunks(FRESH, max, chunks).events == Expected(items)
    ensures FeedChunks(FRESH, max, chunks).parser.state == Idle
  {
    ChunksAreInvisible(FRESH, max, chunks);
    StreamFromIdle(FRESH, max, items);
  }

  /** Self-synchronisation, whole streams: from every state, buffer and
      chunking, one complete frame is enough for everything after it to be
      delivered exactly; at most one frame comes out before that. */
  lemma SelfSynchronisation(p: Parser, max: nat, f: Frame, items: seq<StreamItem>, chunks: seq<seq<byte>>)
    requires Encodable(f) && Deliverable(items, max)
    requires Flatten(chunks) == FrameBytes(f) + StreamBytes(items, max)
    ensures
      var noise := Feed(p, max, FrameBytes(f)).events;
      && FrameCount(noise) <= 1
      && FeedChunks(p, max, chunks).events == noise + Expected(items)
      && FeedChunks(p, max, chunks).parser.state == Idle
  {
    ChunksAreInvisible(p, max, chunks);
    FeedConcat(p, max, FrameBytes(f), StreamBytes(items, max));
    Resynchronises(p, max, Body(f));
    StreamFromIdle(Feed(p, max, FrameBytes(f)).parser, max, items);
  }

  // ---------- The two decoders ----------

  function FrameEvents(frames: seq<Frame>): seq<Event> {
    if frames == [] then [] else [FrameEvent(frames[0])] + FrameEvents(frames[1..])
  }

  ghost predicate OnlyFrames(events: seq<Event>) {
    forall e :: e in events ==> e.FrameEvent?
  }

  ghost predicate AllFit(bodies: seq<seq<byte>>, max: nat) {
    forall b :: b in bodies ==> Fits(b, max)
  }

  lemma DecodePrefix(bs: seq<byte>)
    requires bs != [] && Decode(bs).Ok?
    ensures |bs| >= 2 && bs[0] == DLE && bs[1] == STX && ScanBody(bs[2..]).Found?
  {
    hide ParseBody;
  }

  /** A buffer that decodes is a wrapped body followed by a buffer that decodes. */
  lemma {:induction false} DecodeShape(bs: seq<byte>) returns (body: seq<byte>, rest: seq<byte>)
    requires bs != [] && Decode(bs).Ok?
    ensures bs == Wrap(body) + rest && |rest| < |bs|
    ensures ParseBody(body).Ok? && Decode(rest).Ok?
    ensures Decode(bs).value == [ParseBody(body).value] + Decode(rest).value
    ensures Bodies(bs) == [body] + Bodies(rest)
  {
    hide ParseBody, Decode, Bodies;
    DecodePrefix(bs);
    ScanIsEscape(bs[2..]);
    body, rest := ScanBody(bs[2..]).body, ScanBody(bs[2..]).rest;
    hide ScanBody, Escape;
    assert bs == [DLE, STX] + bs[2..];
    assert bs == Wrap(body) + rest;
    DecodeWrapped(body, rest);
  }

  lemma {:induction false} DecodedIsStreamed(p: Parser, max: nat, bs: seq<byte>)
    requires p.state == Idle && Decode(bs).Ok? && AllFit(Bodies(bs), max)
    ensures Feed(p, max, bs).parser.state == Idle
    ensures Feed(p, max, bs).events == FrameEvents(Decode(bs).value)
    decreases |bs|
  {
    if bs != [] {
      var body, rest := DecodeShape(bs);
      assert forall b :: b in Bodies(rest) ==> b in Bodies(bs);
      assert body in Bodies(bs);
      FeedConcat(p, max, Wrap(body), rest);
      WrapFromIdle(p, max, body);
      DecodedIsStreamed(FRESH, max, rest);
    }
  }

  /** Where a parser inside a frame, fed bs, gets to once the frame is found and closed. */
  ghost predicate ClosesFrame(p: Parser, max: nat, bs: seq<byte>) {
    var s := ScanBody(bs);
    && s.Found? && FitsAfter(|p.buffer|, s.body, max)
    && Feed(p, max, bs) == Fed(Feed(FRESH, max, s.rest).parser,
                               [Complete(p.buffer + s.body)] + Feed(FRESH, max, s.rest).events)
  }

  lemma ClosesAfter(p: Parser, max: nat, b: byte, bs: seq<byte>)
    requires p.state == InFrame && (b == DLE || |p.buffer| < max)
    requires ClosesFrame(Parser(InFrame, p.buffer + [b]), max, bs)
    ensures ClosesFrame(p, max, EscapeByte(b) + bs)
  {
    hide ParseBody, Step;
    var s := ScanBody(bs);
    var all := EscapeByte(b) + bs;
    assert all[|EscapeByte(b)|..] == bs;
    assert ScanBody(all) == Found([b] + s.body, s.rest);
    FitsSplit(|p.buffer|, [b] + s.body, max);
    assert ([b] + s.body)[1..] == s.body;
    assert p.buffer + [b] + s.body == p.buffer + ([b] + s.body);
    FeedConcat(p, max, EscapeByte(b), bs);
    EscapedByte(p, max, b);
  }

  /** A parser inside a frame that emits only frames and ends Idle has found the end of the frame. */
  lemma {:induction false} InsideFrame(p: Parser, max: nat, bs: seq<byte>)
    requires p.state == InFrame
    requires OnlyFrames(Feed(p, max, bs).events) && Feed(p, max, bs).parser.state == Idle
    ensures ClosesFrame(p, max, bs)
    decreases |bs|
  {
    hide ParseBody, ClosesFrame, ScanBody;
    FirstEvent(p, max, bs);
    if bs[0] != DLE {
      InsideFrame(Parser(InFrame, p.buffer + [bs[0]]), max, bs[1..]);
      ClosesAfter(p, max, bs[0], bs[1..]);
      assert bs == EscapeByte(bs[0]) + bs[1..];
    } else {
      FirstEvent(p.(state := InFrameAfterDLE), max, bs[1..]);
      assert bs[1..][1..] == bs[2..];
      if bs[1] == ETX {
        ClosesNow(p, max, bs);
      } else {
        InsideFrame(Parser(InFrame, p.buffer + [DLE]), max, bs[2..]);
        ClosesAfter(p, max, DLE, bs[2..]);
        assert bs == EscapeByte(DLE) + bs[2..];
      }
    }
  }

  lemma ClosesNow(p: Parser, max: nat, bs: seq<byte>)
    requires p.state == InFrame && |bs| >= 2 && bs[0] == DLE && bs[1] == ETX
    ensures ClosesFrame(p, max, bs)
  {
    hide ParseBody;
    assert bs == [DLE, ETX] + bs[2..];
    FeedConcat(p, max, [DLE, ETX], bs[2..]);
    Closing(p, max);
    assert p.buffer + [] == p.buffer;
  }

  /** The first step of a run that emits only frames emits only frames, and so does the rest. */
  lemma FirstEvent(p: Parser, max: nat, bs: seq<byte>)
    requires OnlyFrames(Feed(p, max, bs).events)
    requires p.state != Idle ==> Feed(p, max, bs).parser.state == Idle
    requires p.state == Idle ==> bs != []
    ensures bs != []
    ensures Step(p, max, bs[0]).events != [] ==> Step(p, max, bs[0]).events[0].FrameEvent?
    ensures OnlyFrames(Feed(Step(p, max, bs[0]).parser, max, bs[1..]).events)
  {
    var first := Step(p, max, bs[0]);
    var rest := Feed(first.parser, max, bs[1..]);
    assert Feed(p, max, bs).events == first.events + rest.events;
    if first.events != [] { assert (first.events + rest.events)[0] == first.events[0]; }
    forall e | e in rest.events ensures e.FrameEvent? { assert e in first.events + rest.events; }
  }

  lemma {:induction false} StreamedIsDecoded(p: Parser, max: nat, bs: seq<byte>)
    requires p.state == Idle
    requires OnlyFrames(Feed(p, max, bs).events) && Feed(p, max, bs).parser.state == Idle
    ensures Decode(bs).Ok? && AllFit(Bodies(bs), max)
    ensures Feed(p, max, bs).events == FrameEvents(Decode(bs).value)
    decreases |bs|
  {
    hide ParsePayload, ParseBody;
    if bs != [] {
      FirstEvent(p, max, bs);
      assert bs[0] == DLE && bs[1..] != [];
      var q := p.(state := AfterDLE);
      FirstEvent(q, max, bs[1..]);
      assert bs[1] == STX && bs[1..][1..] == bs[2..];
      InsideFrame(Parser(InFrame, []), max, bs[2..]);
      var s := ScanBody(bs[2..]);
      assert [] + s.body == s.body;
      assert Fits(s.body, max) by { assert FitsAfter(0, s.body, max); }
      var events := Feed(p, max, bs).events;
      var rest := Feed(FRESH, max, s.rest);
      assert events == [Complete(s.body)] + rest.events;
      assert Complete(s.body) in events && forall e :: e in rest.events ==> e in events;
      StreamedIsDecoded(FRESH, max, s.rest);
    }
  }

  /** The two decoders accept the same language and read it the same way, up to
      the buffer limit only the parser has: decode succeeds with these frames
      and every body fits, if and only if the parser, fresh, emits exactly these
      frames without errors and ends Idle. */
  lemma DecodersAgree(max: nat, bs: seq<byte>, frames: seq<Frame>)
    ensures (Decode(bs) == Ok(frames) && AllFit(Bodies(bs), max))
       <==> (Feed(FRESH, max, bs).events == FrameEvents(frames) && Feed(FRESH, max, bs).parser.state == Idle)
  {
    if Decode(bs) == Ok(frames) && AllFit(Bodies(bs), max) {
      DecodedIsStreamed(FRESH, max, bs);
    }
    if Feed(FRESH, max, bs).events == FrameEvents(frames) && Feed(FRESH, max, bs).parser.state == Idle {
      FrameEventsOnlyFrames(frames);
      StreamedIsDecoded(FRESH, max, bs);
      FrameEventsInjective(frames, Decode(bs).value);
    }
  }

  lemma {:induction false} FrameEventsOnlyFrames(frames: seq<Frame>)
    ensures OnlyFrames(FrameEvents(frames))
  {
    if frames != [] { FrameEventsOnlyFrames(frames[1..]); }
  }

  lemma {:induction false} FrameEventsInjective(a: seq<Frame>, b: seq<Frame>)
    requires FrameEvents(a) == FrameEvents(b)
    ensures a == b
  {
    if a != [] && b != [] {
      var ea, eb := FrameEvents(a), FrameEvents(b);
      assert ea[0] == FrameEvent(a[0]) && eb[0] == FrameEvent(b[0]);
      assert ea[1..] == FrameEvents(a[1..]) && eb[1..] == FrameEvents(b[1..]);
      FrameEventsInjective(a[1..], b[1..]);
      assert a == [a[0]] + a[1..] && b == [b[0]] + b[1..];
    }
  }

  // ---------- Errors of decode ----------

  /** A body that is cut off, anywhere, is an error of the frame. */
  lemma {:induction false} CutScan(body: seq<byte>, n: nat)
    requires n < |Escape(body)| + 2
    ensures ScanBody((Escape(body) + [DLE, ETX])[..n]) == Failed(FrameParseError)
  {
    var bs := (Escape(body) + [DLE, ETX])[..n];
    if body == [] {
      assert n == 1 ==> bs == [DLE];
    } else {
      var e := EscapeByte(body[0]);
      assert Escape(body) + [DLE, ETX] == e + (Escape(body[1..]) + [DLE, ETX]);
      if n >= |e| {
        assert bs == e + (Escape(body[1..]) + [DLE, ETX])[..n - |e|];
        CutScan(body[1..], n - |e|);
        assert bs[|e|..] == (Escape(body[1..]) + [DLE, ETX])[..n - |e|];
      } else {
        assert n <= 1;
      }
    }
  }

  /** A buffer that ends inside a frame is refused, wherever it is cut, however many complete frames come first. */
  lemma TruncatedIsRefused(frames: seq<Frame>, body: seq<byte>, n: nat)
    requires (forall f :: f in frames ==> Encodable(f)) && 0 < n < |Wrap(body)|
    ensures Decode(BatchBytes(frames) + Wrap(body)[..n]) == Err(FrameParseError)
  {
    var cut := Wrap(body)[..n];
    if n >= 2 {
      CutScan(body, n - 2);
      assert cut[2..] == (Escape(body) + [DLE, ETX])[..n - 2];
    }
    assert Decode(cut) == Err(FrameParseError);
    BadTail(frames, cut, FrameParseError);
  }

  /** An error after complete frames is the error of the whole buffer. */
  lemma {:induction false} BadTail(frames: seq<Frame>, tail: seq<byte>, e: Error)
    requires (forall f :: f in frames ==> Encodable(f)) && Decode(tail) == Err(e)
    ensures Decode(BatchBytes(frames) + tail) == Err(e)
    decreases frames
  {
    hide Encodable, Wrap, Body, ParseBody, Decode;
    if frames == [] {
      assert BatchBytes(frames) + tail == tail;
    } else {
      var rest := BatchBytes(frames[1..]) + tail;
      BadTail(frames[1..], tail, e);
      assert BatchBytes(frames) + tail == FrameBytes(frames[0]) + rest;
      FrameBytesIs(frames[0]);
      DecodeWrapped(Body(frames[0]), rest);
      ParseBodyOf(frames[0]);
    }
  }

  lemma FrameBytesIs(f: Frame)
    requires Encodable(f)
    ensures FrameBytes(f) == Wrap(Body(f))
  {
  }

  lemma {:induction false} BadEscapeScan(body: seq<byte>, x: byte, rest: seq<byte>)
    requires x != ETX && x != DLE
    ensures ScanBody(Escape(body) + [DLE, x] + rest) == Failed(InvalidDleSequence)
  {
    var bs := Escape(body) + [DLE, x] + rest;
    if body != [] {
      var e := EscapeByte(body[0]);
      BadEscapeScan(body[1..], x, rest);
      assert bs == e + (Escape(body[1..]) + [DLE, x] + rest);
      assert bs[|e|..] == Escape(body[1..]) + [DLE, x] + rest;
    }
  }

  /** A bad escape inside a frame is the same error to both decoders. */
  lemma BadEscape(max: nat, body: seq<byte>, x: byte, rest: seq<byte>)
    requires x != ETX && x != DLE && Fits(body, max)
    ensures Decode([DLE, STX] + Escape(body) + [DLE, x] + rest) == Err(InvalidDleSequence)
    ensures Feed(FRESH, max, [DLE, STX] + Escape(body) + [DLE, x]) == Fed(FRESH, [ErrorEvent(InvalidDleSequence)])
  {
    BadEscapeScan(body, x, rest);
    assert ([DLE, STX] + Escape(body) + [DLE, x] + rest)[2..] == Escape(body) + [DLE, x] + rest;
    FeedConcat(FRESH, max, [DLE, STX] + Escape(body), [DLE, x]);
    FeedConcat(FRESH, max, [DLE, STX], Escape(body));
    Opening(FRESH, max);
    assert FitsAfter(0, body, max);
    EscapedInside(Parser(InFrame, []), max, body);
    assert [] + body == body;
    FeedPair(Parser(InFrame, body), max, DLE, x);
  }

  /** Bytes that do not begin with DLE STX are refused. */
  lemma BadStart(bs: seq<byte>)
    requires bs != [] && !(|bs| >= 2 && bs[0] == DLE && bs[1] == STX)
    ensures Decode(bs) == Err(FrameParseError)
  {
  }

  /** A complete frame without a whole header is a frame parse error to both decoders. */
  lemma ShortFrame(max: nat, body: seq<byte>, rest: seq<byte>)
    requires |body| < 6 && Fits(body, max)
    ensures Decode(Wrap(body) + rest) == Err(FrameParseError)
    ensures Feed(FRESH, max, Wrap(body)) == Fed(FRESH, [ErrorEvent(FrameParseError)])
  {
    hide Decode, Feed, Wrap;
    BadBody(max, body, rest, FrameParseError);
  }

  /** A complete frame with a body that does not parse is that error to both decoders. */
  lemma BadBody(max: nat, body: seq<byte>, rest: seq<byte>, e: Error)
    requires ParseBody(body) == Err(e) && Fits(body, max)
    ensures Decode(Wrap(body) + rest) == Err(e)
    ensures Feed(FRESH, max, Wrap(body)) == Fed(FRESH, [ErrorEvent(e)])
  {
    hide ParseBody;
    DecodeWrapped(body, rest);
    WrapFromIdle(FRESH, max, body);
  }
}
