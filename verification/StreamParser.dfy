/** The four-state byte machine (stream_parser.cpp), with callbacks as an event log. */
module StreamParser {
  import opened Types
  import opened Codec

  datatype State = Idle | AfterDLE | InFrame | InFrameAfterDLE

  datatype Event = FrameEvent(frame: Frame) | HeartbeatEvent | ErrorEvent(error: Error)

  // ---------- Specification: the machine on values ----------

  datatype Parser = Parser(state: State, buffer: seq<byte>)

  datatype Fed = Fed(parser: Parser, events: seq<Event>)

  const FRESH: Parser := Parser(Idle, [])

  function Complete(body: seq<byte>): Event {
    match ParseBody(body)
    case Ok(f) => FrameEvent(f)
    case Err(e) => ErrorEvent(e)
  }

  function Step(p: Parser, max: nat, b: byte): Fed {
    match p.state
    case Idle =>
      if b == DLE then Fed(p.(state := AfterDLE), []) else Fed(p, [ErrorEvent(UnexpectedByte)])
    case AfterDLE =>
      if b == STX then Fed(Parser(InFrame, []), [])
      else if b == ENQ then Fed(p.(state := Idle), [HeartbeatEvent])
      else Fed(p.(state := Idle), [ErrorEvent(InvalidDleSequence)])
    case InFrame =>
      if b == DLE then Fed(p.(state := InFrameAfterDLE), [])
      else if |p.buffer| >= max then Fed(FRESH, [ErrorEvent(BufferExceeded)])
      else Fed(p.(buffer := p.buffer + [b]), [])
    case InFrameAfterDLE =>
      if b == ETX then Fed(FRESH, [Complete(p.buffer)])
      else if b == DLE then Fed(Parser(InFrame, p.buffer + [DLE]), [])
      else Fed(FRESH, [ErrorEvent(InvalidDleSequence)])
  }

  function Feed(p: Parser, max: nat, bs: seq<byte>): Fed
    decreases bs
  {
    if bs == [] then Fed(p, [])
    else
      var first := Step(p, max, bs[0]);
      var rest := Feed(first.parser, max, bs[1..]);
      Fed(rest.parser, first.events + rest.events)
  }

  /** Chunk boundaries are invisible: feeding a then b is feeding a + b. */
  lemma {:induction false} FeedConcat(p: Parser, max: nat, a: seq<byte>, b: seq<byte>)
    ensures Feed(p, max, a + b)
         == Fed(Feed(Feed(p, max, a).parser, max, b).parser,
                Feed(p, max, a).events + Feed(Feed(p, max, a).parser, max, b).events)
    decreases a
  {
    hide *;
    if a == [] {
      assert a + b == b;
      FeedNothing(p, max);
      var last := Feed(p, max, b);
      assert [] + last.events == last.events;
    } else {
      var first := Step(p, max, a[0]);
      FeedConcat(first.parser, max, a[1..], b);
      assert (a + b)[0] == a[0] && (a + b)[1..] == a[1..] + b;
      FeedFirst(p, max, a);
      FeedFirst(p, max, a + b);
      var mid := Feed(first.parser, max, a[1..]);
      var last := Feed(mid.parser, max, b);
      assert first.events + (mid.events + last.events) == (first.events + mid.events) + last.events;
    }
  }

  lemma FeedNothing(p: Parser, max: nat)
    ensures Feed(p, max, []) == Fed(p, [])
  {
  }

  lemma FeedFirst(p: Parser, max: nat, bs: seq<byte>)
    requires bs != []
    ensures
      var first := Step(p, max, bs[0]);
      var rest := Feed(first.parser, max, bs[1..]);
      Feed(p, max, bs) == Fed(rest.parser, first.events + rest.events)
  {
    hide Step;
  }

  /** Every byte buffered at an index past the limit is a DLE: only the escape branch skips the check. */
  predicate Fits(body: seq<byte>, max: nat) {
    forall i :: max <= i < |body| ==> body[i] == DLE
  }

  lemma {:induction false} BufferDiscipline(p: Parser, max: nat, bs: seq<byte>)
    requires Fits(p.buffer, max)
    ensures Fits(Feed(p, max, bs).parser.buffer, max)
    decreases bs
  {
    if bs != [] {
      BufferDiscipline(Step(p, max, bs[0]).parser, max, bs[1..]);
    }
  }

  /** Outside a frame nothing is buffered: every error and every end of a frame clears the buffer. */
  predicate Clean(p: Parser) {
    p.state == Idle || p.state == AfterDLE ==> p.buffer == []
  }

  lemma StepKeepsClean(p: Parser, max: nat, b: byte)
    requires Clean(p)
    ensures Clean(Step(p, max, b).parser)
  {
  }

  lemma {:induction false} FeedKeepsClean(max: nat, bs: seq<byte>)
    ensures Clean(Feed(FRESH, max, bs).parser)
    decreases bs
  {
    if bs != [] {
      var front := bs[..|bs| - 1];
      FeedKeepsClean(max, front);
      FeedConcat(FRESH, max, front, [bs[|bs| - 1]]);
      assert front + [bs[|bs| - 1]] == bs;
      StepKeepsClean(Feed(FRESH, max, front).parser, max, bs[|bs| - 1]);
      LastByte(Feed(FRESH, max, front).parser, max, bs[|bs| - 1]);
    }
  }

  lemma LastByte(p: Parser, max: nat, b: byte)
    ensures Feed(p, max, [b]).parser == Step(p, max, b).parser
  {
    assert [b][1..] == [];
  }

  /** A byte that is reported, as an error, a heartbeat or the end of a frame,
      leaves the parser waiting for the next frame; it is reported once, as what it is. */
  lemma ReportedByte(p: Parser, max: nat, b: byte)
    requires Step(p, max, b).events != []
    ensures |Step(p, max, b).events| == 1 && Step(p, max, b).parser.state == Idle
    ensures
      match Step(p, max, b).events[0]
      case HeartbeatEvent => p.state == AfterDLE && b == ENQ
      case FrameEvent(_) => p.state == InFrameAfterDLE && b == ETX
      case ErrorEvent(e) =>
        || (p.state == Idle && b != DLE && e == UnexpectedByte)
        || (p.state == AfterDLE && b != STX && b != ENQ && e == InvalidDleSequence)
        || (p.state == InFrame && b != DLE && |p.buffer| >= max && e == BufferExceeded)
        || (p.state == InFrameAfterDLE && b != ETX && b != DLE && e == InvalidDleSequence)
        || (p.state == InFrameAfterDLE && b == ETX && ParseBody(p.buffer) == Err(e))
  {
    hide ParseBody;
  }

  /** ... and every byte that makes no sense where it stands is reported. */
  lemma NonsenseIsReported(p: Parser, max: nat, b: byte)
    requires || (p.state == Idle && b != DLE) || (p.state == AfterDLE && b != STX)
             || (p.state == InFrame && b != DLE && |p.buffer| >= max) || (p.state == InFrameAfterDLE && b != DLE)
    ensures Step(p, max, b).events != []
  {
    hide ParseBody;
  }

  // ---------- The class ----------

  class DanStreamParser {
    var state: State
    var buffer: seq<byte>
    var log: seq<Event>
    const maxBufferSize: nat

    ghost function Model(): Parser
      reads this
    {
      Parser(state, buffer)
    }

    constructor (maxBufferSize: nat := 1048576)
      ensures Model() == FRESH && log == [] && this.maxBufferSize == maxBufferSize
    {
      state, buffer, log := Idle, [], [];
      this.maxBufferSize := maxBufferSize;
    }

    method Reset()
      modifies this
      ensures Model() == FRESH && log == old(log)
    {
      state := Idle;
      buffer := [];
    }

    method FeedBytes(data: seq<byte>)
      modifies this
      ensures Fed(Model(), log) == Fed(Feed(old(Model()), maxBufferSize, data).parser,
                                       old(log) + Feed(old(Model()), maxBufferSize, data).events)
    {
      for i := 0 to |data|
        invariant Model() == Feed(old(Model()), maxBufferSize, data[..i]).parser
        invariant log == old(log) + Feed(old(Model()), maxBufferSize, data[..i]).events
      {
        assert data[..i + 1] == data[..i] + [data[i]];
        FeedConcat(old(Model()), maxBufferSize, data[..i], [data[i]]);
        FeedOne(Model(), maxBufferSize, data[i]);
        FeedByte(data[i]);
      }
      assert data[..|data|] == data;
    }

    method FeedByte(b: byte)
      modifies this
      ensures Model() == Step(old(Model()), maxBufferSize, b).parser
      ensures log == old(log) + Step(old(Model()), maxBufferSize, b).events
    {
      match state {
        case Idle =>
          if b == DLE {
            state := AfterDLE;
          } else {
            log := log + [ErrorEvent(UnexpectedByte)];
          }
        case AfterDLE =>
          if b == STX {
            state := InFrame;
            buffer := [];
          } else if b == ENQ {
            log := log + [HeartbeatEvent];
            state := Idle;
          } else {
            log := log + [ErrorEvent(InvalidDleSequence)];
            state := Idle;
          }
        case InFrame =>
          if b == DLE {
            state := InFrameAfterDLE;
          } else if |buffer| >= maxBufferSize {
            log := log + [ErrorEvent(BufferExceeded)];
            buffer := [];
            state := Idle;
          } else {
            buffer := buffer + [b];
          }
        case InFrameAfterDLE =>
          if b == ETX {
            var parsed := ParseBody(buffer);
            if parsed.Ok? {
              log := log + [FrameEvent(parsed.value)];
            } else {
              log := log + [ErrorEvent(parsed.error)];
            }
            buffer := [];
            state := Idle;
          } else if b == DLE {
            buffer := buffer + [DLE];
            state := InFrame;
          } else {
            log := log + [ErrorEvent(InvalidDleSequence)];
            buffer := [];
            state := Idle;
          }
      }
    }
  }

  lemma FeedOne(p: Parser, max: nat, b: byte)
    ensures Feed(p, max, [b]) == Step(p, max, b)
  {
    assert [b][1..] == [];
    assert Feed(Step(p, max, b).parser, max, []) == Fed(Step(p, max, b).parser, []);
  }
}
