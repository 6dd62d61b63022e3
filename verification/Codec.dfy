/** DLE framing (codec.cpp): DLE STX escaped-body DLE ETX, with every DLE of the
    body doubled. The body is type:1, keyId:4, dataType:1, payload. */
module Codec {
  import opened Types
  import opened Serializer
  import BigEndian

  // ---------- Escaping ----------

  function EscapeByte(b: byte): seq<byte> {
    if b == DLE then [DLE, DLE] else [b]
  }

  function Escape(body: seq<byte>): seq<byte> {
    if body == [] then [] else EscapeByte(body[0]) + Escape(body[1..])
  }

  /** dleDecode drops every DLE and keeps the byte after it, whatever that is. */
  function Unescape(bs: seq<byte>): seq<byte> {
    if bs == [] then []
    else if bs[0] != DLE then [bs[0]] + Unescape(bs[1..])
    else if |bs| == 1 then []
    else [bs[1]] + Unescape(bs[2..])
  }

  lemma {:induction false} UnescapeEscape(body: seq<byte>)
    ensures Unescape(Escape(body)) == body
  {
    if body != [] {
      UnescapeEscape(body[1..]);
      var e := Escape(body);
      if body[0] == DLE {
        assert e[2..] == Escape(body[1..]);
      } else {
        assert e[1..] == Escape(body[1..]);
      }
    }
  }

  lemma {:induction false} EscapeAppend(body: seq<byte>, b: byte)
    ensures Escape(body + [b]) == Escape(body) + EscapeByte(b)
  {
    if body == [] {
      assert body + [b] == [b];
      assert Escape([b]) == EscapeByte(b) + Escape([]);
    } else {
      EscapeAppend(body[1..], b);
      assert (body + [b])[1..] == body[1..] + [b];
    }
  }

  lemma {:induction false} EscapePlain(body: seq<byte>)
    requires DLE !in body
    ensures Escape(body) == body
  {
    if body != [] {
      EscapePlain(body[1..]);
    }
  }

  lemma {:induction false} UnescapePlain(bs: seq<byte>)
    requires DLE !in bs
    ensures Unescape(bs) == bs
  {
    if bs != [] {
      UnescapePlain(bs[1..]);
    }
  }

  method DleEncode(payload: seq<byte>) returns (out: seq<byte>)
    ensures out == Escape(payload)
  {
    var dleCount := 0;
    for i := 0 to |payload|
      invariant dleCount >= 0 && (dleCount == 0 ==> DLE !in payload[..i])
    {
      if payload[i] == DLE { dleCount := dleCount + 1; }
    }
    assert payload[..|payload|] == payload;
    if dleCount == 0 {
      EscapePlain(payload);
      return payload;
    }
    out := [];
    for i := 0 to |payload|
      invariant out == Escape(payload[..i])
    {
      EscapeAppend(payload[..i], payload[i]);
      assert payload[..i + 1] == payload[..i] + [payload[i]];
      out := out + [payload[i]];
      if payload[i] == DLE { out := out + [DLE]; }
    }
  }

  ghost function UnescapeFrom(data: seq<byte>, i: nat): seq<byte> {
    if i < |data| then Unescape(data[i..]) else []
  }

  lemma UnescapeStep(data: seq<byte>, i: nat)
    requires i < |data|
    ensures data[i] != DLE ==> UnescapeFrom(data, i) == [data[i]] + UnescapeFrom(data, i + 1)
    ensures data[i] == DLE && i + 1 < |data| ==> UnescapeFrom(data, i) == [data[i + 1]] + UnescapeFrom(data, i + 2)
    ensures data[i] == DLE && i + 1 == |data| ==> UnescapeFrom(data, i) == []
  {
    var rest := data[i..];
    assert rest[1..] == data[i + 1..];
    assert |rest| > 1 ==> rest[2..] == data[i + 2..];
    assert UnescapeFrom(data, i + 1) == Unescape(data[i + 1..]);
    assert i + 2 <= |data| ==> UnescapeFrom(data, i + 2) == Unescape(data[i + 2..]);
  }

  method DleDecode(data: seq<byte>) returns (out: seq<byte>)
    ensures out == Unescape(data)
  {
    hide Unescape;
    var dleCount := 0;
    var i := 0;
    while i < |data|
      invariant 0 <= i <= |data| + 1
      invariant dleCount >= 0 && (dleCount == 0 ==> i <= |data| && DLE !in data[..i])
    {
      if data[i] == DLE {
        i := i + 1;
        dleCount := dleCount + 1;
      }
      i := i + 1;
    }
    if dleCount == 0 {
      assert data[..i] == data;
      UnescapePlain(data);
      return data;
    }
    out := [];
    i := 0;
    assert UnescapeFrom(data, 0) == Unescape(data) by { UnescapeAll(data); }
    hide UnescapeFrom;
    while i < |data|
      invariant 0 <= i <= |data| + 1
      invariant out + UnescapeFrom(data, i) == Unescape(data)
    {
      ghost var before := out;
      UnescapeStep(data, i);
      if data[i] == DLE {
        i := i + 1;
      }
      if i < |data| {
        out := out + [data[i]];
        assert out + UnescapeFrom(data, i + 1) == before + ([data[i]] + UnescapeFrom(data, i + 1));
      }
      i := i + 1;
      UnescapeDone(data, i);
    }
    UnescapeDone(data, i);
  }

  lemma UnescapeAll(data: seq<byte>)
    ensures UnescapeFrom(data, 0) == Unescape(data)
  {
    assert data[0..] == data;
  }

  lemma UnescapeDone(data: seq<byte>, i: nat)
    ensures i >= |data| ==> UnescapeFrom(data, i) == []
  {
  }

  // ---------- Bodies ----------

  predicate ModelledFrame(f: Frame) {
    if IsKeyRegistrationFrame(f.frameType) then f.payload.Str? ==> Narrow(f.payload.text)
    else if IsSignalFrame(f.frameType) then true
    else Modelled(f.dataType, f.payload)
  }

  function RawPayload(f: Frame): Result<seq<byte>>
    requires ModelledFrame(f)
  {
    if IsKeyRegistrationFrame(f.frameType) then
      (if f.payload.Str? then Ok(BytesOf(f.payload.text)) else Err(BadVariantAccess))
    else if IsSignalFrame(f.frameType) then Ok([])
    else Serialize(f.dataType, f.payload)
  }

  /** Frames that encode without throwing. */
  predicate Encodable(f: Frame) {
    ModelledFrame(f) && RawPayload(f).Ok?
  }

  function Body(f: Frame): seq<byte>
    requires Encodable(f)
  {
    [f.frameType] + BigEndian.Bytes(4, f.keyId) + [f.dataType] + RawPayload(f).value
  }

  function FrameBytes(f: Frame): seq<byte>
    requires Encodable(f)
  {
    Wrap(Body(f))
  }

  function Wrap(body: seq<byte>): seq<byte> {
    [DLE, STX] + Escape(body) + [DLE, ETX]
  }

  function ParsePayload(ft: FrameType, dt: DataType, data: seq<byte>): Result<Payload> {
    if IsKeyRegistrationFrame(ft) then Ok(Str(StringOf(data)))
    else if IsSignalFrame(ft) then Ok(Null)
    else Deserialize(dt, data)
  }

  /** parseFrame, and the second half of decode's loop. */
  function ParseBody(body: seq<byte>): Result<Frame> {
    if |body| < 6 then Err(FrameParseError)
    else
      BigEndian.WriteRead(body[1..5]);
      BigEndian.Powers();
      match ParsePayload(body[0], body[5], body[6..])
      case Ok(p) => Ok(Frame(body[0], BigEndian.Value(body[1..5]), body[5], p))
      case Err(e) => Err(e)
  }

  /** The frame a receiver sees: payload in normal form, none on signals. */
  function NormalFrame(f: Frame): Frame {
    if IsKeyRegistrationFrame(f.frameType) then f
    else if IsSignalFrame(f.frameType) then f.(payload := Null)
    else f.(payload := Normal(f.dataType, f.payload))
  }

  function NormalFrames(frames: seq<Frame>): seq<Frame> {
    if frames == [] then [] else [NormalFrame(frames[0])] + NormalFrames(frames[1..])
  }

  lemma ParseBodyOf(f: Frame)
    requires Encodable(f)
    ensures ParseBody(Body(f)) == Ok(NormalFrame(f))
  {
    var body := Body(f);
    assert body[0] == f.frameType && body[5] == f.dataType;
    assert body[1..5] == BigEndian.Bytes(4, f.keyId);
    assert body[6..] == RawPayload(f).value;
    BigEndian.Powers();
    BigEndian.ReadWrite(4, f.keyId);
    PayloadOf(f);
  }

  lemma PayloadOf(f: Frame)
    requires Encodable(f)
    ensures ParsePayload(f.frameType, f.dataType, RawPayload(f).value) == Ok(NormalFrame(f).payload)
  {
    if IsKeyRegistrationFrame(f.frameType) {
      StringRoundTrip(f.payload.text);
    } else if !IsSignalFrame(f.frameType) {
      RoundTrip(f.dataType, f.payload);
    }
  }

  method Encode(f: Frame) returns (r: Result<seq<byte>>)
    requires ModelledFrame(f)
    ensures r.Ok? <==> Encodable(f)
    ensures r.Ok? ==> r.value == FrameBytes(f)
  {
    if RawPayload(f).Err? {
      return Err(RawPayload(f).error);
    }
    var rawBody: seq<byte> := [f.frameType];
    rawBody := rawBody + BigEndian.Bytes(4, f.keyId);
    rawBody := rawBody + [f.dataType];
    rawBody := rawBody + RawPayload(f).value;
    var escapedBody := DleEncode(rawBody);
    return Ok([DLE, STX] + escapedBody + [DLE, ETX]);
  }

  function BatchBytes(frames: seq<Frame>): seq<byte>
    requires forall f :: f in frames ==> Encodable(f)
  {
    if frames == [] then [] else FrameBytes(frames[0]) + BatchBytes(frames[1..])
  }

  lemma {:induction false} BatchAppend(frames: seq<Frame>, f: Frame)
    requires Encodable(f) && forall f' :: f' in frames ==> Encodable(f')
    ensures BatchBytes(frames + [f]) == BatchBytes(frames) + FrameBytes(f)
  {
    hide Encodable, FrameBytes;
    if frames == [] {
      assert frames + [f] == [f];
      assert BatchBytes([f]) == FrameBytes(f) + BatchBytes([]);
    } else {
      BatchAppend(frames[1..], f);
      assert (frames + [f])[1..] == frames[1..] + [f];
    }
  }

  method EncodeBatch(frames: seq<Frame>) returns (result: seq<byte>)
    requires forall f :: f in frames ==> Encodable(f)
    ensures result == BatchBytes(frames)
  {
    result := [];
    for i := 0 to |frames|
      invariant result == BatchBytes(frames[..i])
    {
      BatchAppend(frames[..i], frames[i]);
      assert frames[..i + 1] == frames[..i] + [frames[i]];
      var encoded := Encode(frames[i]);
      result := result + encoded.value;
    }
    assert frames[..|frames|] == frames;
  }

  // ---------- Decoding a buffer ----------

  /** What follows a DLE STX: a body up to its DLE ETX and the bytes after it, or an error. */
  datatype Scan = Found(body: seq<byte>, rest: seq<byte>) | Failed(error: Error)

  function Prepend(b: byte, s: Scan): Scan {
    if s.Found? then Found([b] + s.body, s.rest) else s
  }

  function ScanBody(bs: seq<byte>): (s: Scan)
    ensures s.Found? ==> |s.rest| < |bs|
  {
    if bs == [] then Failed(FrameParseError)
    else if bs[0] != DLE then Prepend(bs[0], ScanBody(bs[1..]))
    else if |bs| == 1 then Failed(FrameParseError)
    else if bs[1] == ETX then Found([], bs[2..])
    else if bs[1] == DLE then Prepend(DLE, ScanBody(bs[2..]))
    else Failed(InvalidDleSequence)
  }

  /** The bodies of a buffer of complete frames, or the first framing error. */
  function Decode(bs: seq<byte>): Result<seq<Frame>>
    decreases |bs|
  {
    if bs == [] then Ok([])
    else if |bs| == 1 || bs[0] != DLE || bs[1] != STX then Err(FrameParseError)
    else
      match ScanBody(bs[2..])
      case Failed(e) => Err(e)
      case Found(body, rest) =>
        match ParseBody(body)
        case Err(e) => Err(e)
        case Ok(f) =>
          match Decode(rest)
          case Err(e) => Err(e)
          case Ok(fs) => Ok([f] + fs)
  }

  /** The bodies decode finds, when it succeeds. */
  function Bodies(bs: seq<byte>): seq<seq<byte>>
    decreases |bs|
  {
    if |bs| < 2 then []
    else
      match ScanBody(bs[2..])
      case Failed(_) => []
      case Found(body, rest) => [body] + Bodies(rest)
  }

  lemma {:induction false} ScanOfEscape(body: seq<byte>, rest: seq<byte>)
    ensures ScanBody(Escape(body) + [DLE, ETX] + rest) == Found(body, rest)
  {
    var bs := Escape(body) + [DLE, ETX] + rest;
    if body == [] {
      assert bs[2..] == rest;
    } else {
      ScanOfEscape(body[1..], rest);
      var tail := Escape(body[1..]) + [DLE, ETX] + rest;
      assert bs == EscapeByte(body[0]) + tail;
      assert bs[|EscapeByte(body[0])|..] == tail;
      hide Escape;
      assert [body[0]] + body[1..] == body;
    }
  }

  lemma {:induction false} ScanIsEscape(bs: seq<byte>)
    requires ScanBody(bs).Found?
    ensures bs == Escape(ScanBody(bs).body) + [DLE, ETX] + ScanBody(bs).rest
  {
    var s := ScanBody(bs);
    if bs[0] == DLE && bs[1] == ETX {
      assert bs == [DLE, ETX] + bs[2..];
    } else {
      var n := if bs[0] == DLE then 2 else 1;
      ScanIsEscape(bs[n..]);
      var s' := ScanBody(bs[n..]);
      assert s.body[0] == bs[0] && s.body[1..] == s'.body;
      assert bs == bs[..n] + bs[n..] && bs[..n] == EscapeByte(bs[0]);
    }
  }

  /** decode inverts encodeBatch, and fails on nothing encodeBatch can print. */
  lemma {:induction false} DecodeBatch(frames: seq<Frame>)
    requires forall f :: f in frames ==> Encodable(f)
    ensures Decode(BatchBytes(frames)) == Ok(NormalFrames(frames))
  {
    if frames != [] {
      DecodeBatch(frames[1..]);
      DecodeWrapped(Body(frames[0]), BatchBytes(frames[1..]));
      ParseBodyOf(frames[0]);
    }
  }

  lemma DecodeWrapped(body: seq<byte>, rest: seq<byte>)
    ensures Decode(Wrap(body) + rest) ==
      match ParseBody(body)
      case Err(e) => Err(e)
      case Ok(f) => if Decode(rest).Ok? then Ok([f] + Decode(rest).value) else Decode(rest)
    ensures Bodies(Wrap(body) + rest) == [body] + Bodies(rest)
  {
    var bs := Wrap(body) + rest;
    ScanOfEscape(body, rest);
    assert bs[2..] == Escape(body) + [DLE, ETX] + rest;
  }

  ghost function After(frames: seq<Frame>, r: Result<seq<Frame>>): (after: Result<seq<Frame>>)
    ensures frames == [] ==> after == r
  {
    if r.Ok? then
      assert frames == [] ==> frames + r.value == r.value;
      Ok(frames + r.value)
    else r
  }

  ghost predicate Decoding(data: seq<byte>, i: nat, frames: seq<Frame>) {
    i <= |data| && Decode(data) == After(frames, Decode(data[i..]))
  }

  method DecodeBuffer(data: seq<byte>) returns (r: Result<seq<Frame>>)
    ensures r == Decode(data)
  {
    hide ParseBody;
    var frames: seq<Frame> := [];
    var i := 0;
    assert Decoding(data, 0, []) by { assert data[0..] == data; }
    while i < |data|
      invariant 0 <= i <= |data|
      invariant Decoding(data, i, frames)
    {
      DecodeStep(data, i, frames);
      if i + 1 >= |data| {
        return Err(FrameParseError);
      }
      if data[i] != DLE || data[i + 1] != STX {
        return Err(FrameParseError);
      }
      i := i + 2;
      var scan := FindBody(data, i);
      if scan.Failed? {
        return Err(scan.error);
      }
      var parsed := ParseBody(scan.body);
      if parsed.Err? {
        return Err(parsed.error);
      }
      i := |data| - |scan.rest|;
      frames := frames + [parsed.value];
    }
    assert data[i..] == [] && frames + [] == frames;
    return Ok(frames);
  }

  /** One turn of decode's outer loop. */
  lemma DecodeStep(data: seq<byte>, i: nat, frames: seq<Frame>)
    requires i < |data| && Decoding(data, i, frames)
    ensures i + 1 == |data| || data[i] != DLE || data[i + 1] != STX ==> Decode(data) == Err(FrameParseError)
    ensures i + 1 < |data| && data[i] == DLE && data[i + 1] == STX ==>
      match ScanBody(data[i + 2..])
      case Failed(e) => Decode(data) == Err(e)
      case Found(body, rest) =>
        match ParseBody(body)
        case Err(e) => Decode(data) == Err(e)
        case Ok(f) => |rest| <= |data| && (rest == data[|data| - |rest|..] ==>
                      Decoding(data, |data| - |rest|, frames + [f]))
  {
    var here := data[i..];
    if i + 1 < |data| && data[i] == DLE && data[i + 1] == STX {
      assert here[2..] == data[i + 2..];
      match ScanBody(here[2..])
      case Failed(e) =>
      case Found(body, rest) =>
        var parsed := ParseBody(body);
        if parsed.Ok? && Decode(rest).Ok? {
          assert frames + ([parsed.value] + Decode(rest).value) == frames + [parsed.value] + Decode(rest).value;
        }
    }
  }

  /** The inner loop of decode: find DLE ETX from bodyStart on, then unescape what lies between. */
  method FindBody(data: seq<byte>, bodyStart: nat) returns (s: Scan)
    requires bodyStart <= |data|
    ensures s == ScanBody(data[bodyStart..])
    ensures s.Found? ==> |s.rest| <= |data| && s.rest == data[|data| - |s.rest|..]
  {
    var i := bodyStart;
    ghost var soFar: seq<byte> := [];
    assert Scanning(data, bodyStart, i, soFar);
    hide Scanning, ScanBody;
    while i < |data|
      invariant bodyStart <= i <= |data|
      invariant Scanning(data, bodyStart, i, soFar)
    {
      ScanStep(data, bodyStart, i, soFar);
      if data[i] == DLE {
        if i + 1 >= |data| {
          return Failed(FrameParseError);
        }
        if data[i + 1] == ETX {
          var body := DleDecode(data[bodyStart..i]);
          return Found(body, data[i + 2..]);
        } else if data[i + 1] == DLE {
          soFar := soFar + [DLE];
          i := i + 2;
        } else {
          return Failed(InvalidDleSequence);
        }
      } else {
        soFar := soFar + [data[i]];
        i := i + 1;
      }
    }
    ScanEnd(data, bodyStart, soFar);
    return Failed(FrameParseError);
  }

  /** The bytes from `from` to i are the escape of soFar, and scanning goes on at i. */
  ghost predicate Scanning(data: seq<byte>, from: nat, i: nat, soFar: seq<byte>) {
    && from <= i <= |data|
    && data[from..i] == Escape(soFar)
    && ScanBody(data[from..]) == PrependAll(soFar, ScanBody(data[i..]))
  }

  /** One turn of the scanning loop. */
  lemma ScanStep(data: seq<byte>, from: nat, i: nat, soFar: seq<byte>)
    requires Scanning(data, from, i, soFar) && i < |data|
    ensures data[i] != DLE ==> Scanning(data, from, i + 1, soFar + [data[i]])
    ensures data[i] == DLE ==>
      if i + 1 == |data| then ScanBody(data[from..]) == Failed(FrameParseError)
      else if data[i + 1] == ETX then ScanBody(data[from..]) == Found(Unescape(data[from..i]), data[i + 2..])
      else if data[i + 1] == DLE then Scanning(data, from, i + 2, soFar + [DLE])
      else ScanBody(data[from..]) == Failed(InvalidDleSequence)
  {
    var here := data[i..];
    assert here[1..] == data[i + 1..];
    EscapeAppend(soFar, data[i]);
    if data[i] != DLE {
      assert data[from..i + 1] == data[from..i] + [data[i]];
      PrependStep(soFar, data[i], ScanBody(data[i + 1..]));
    } else if i + 1 < |data| {
      assert here[2..] == data[i + 2..];
      if data[i + 1] == ETX {
        UnescapeEscape(soFar);
        assert soFar + [] == soFar;
      } else if data[i + 1] == DLE {
        assert data[from..i + 2] == data[from..i] + [DLE, DLE];
        PrependStep(soFar, DLE, ScanBody(data[i + 2..]));
      }
    }
  }

  lemma ScanEnd(data: seq<byte>, from: nat, soFar: seq<byte>)
    requires Scanning(data, from, |data|, soFar)
    ensures ScanBody(data[from..]) == Failed(FrameParseError)
  {
    assert data[|data|..] == [];
  }

  ghost function PrependAll(bs: seq<byte>, s: Scan): Scan {
    if s.Found? then Found(bs + s.body, s.rest) else s
  }

  lemma PrependStep(bs: seq<byte>, b: byte, s: Scan)
    ensures PrependAll(bs, Prepend(b, s)) == PrependAll(bs + [b], s)
  {
    if s.Found? {
      assert bs + ([b] + s.body) == bs + [b] + s.body;
    }
  }
}
