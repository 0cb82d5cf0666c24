/**
 The command protocol: which requests and responses are valid, and how they look as bytes.
 `ParseRequest` reads one request from the front of a byte stream. It is shown to be the exact
 inverse of writing: a stream parses to a request and a rest if and only if the request is
 valid and the stream is its frame followed by the rest.
 */
module CommandProtocol {
  import opened Words
  import opened WireFormat

  const PROTOCOL_VERSION: U32 := 2
  const REQUEST_MAGIC: U32 := 0x32514341
  const RESPONSE_MAGIC: U32 := 0x32524341
  const ACKNOWLEDGEMENT_MAGIC: U32 := 0x32414341
  const MAX_PAYLOAD_BYTES: U32 := 64 * 1024
  const UNIT_BYTES: nat := 2   // sizeof(wchar_t)

  // Commands and targets stay numbers, since the wire may carry any 32-bit value.
  const LIST: U32 := 1
  const STATUS: U32 := 2
  const CONNECT: U32 := 3
  const DISCONNECT: U32 := 4
  const RECONNECT: U32 := 5
  const TOGGLE_LAST: U32 := 6
  const DISCONNECT_ALL: U32 := 7
  const RECONNECT_ALL: U32 := 8
  const SHOW: U32 := 9
  const SETTINGS: U32 := 10
  const DEFAULT_SHOW: U32 := 11
  const DEFAULT_SET: U32 := 12
  const DEFAULT_CLEAR: U32 := 13
  const ALIAS_SET: U32 := 14
  const ALIAS_CLEAR: U32 := 15
  const ALIAS_LIST: U32 := 16

  const TARGET_NONE: U32 := 0
  const TARGET_ID: U32 := 1
  const TARGET_NAME: U32 := 2
  const TARGET_MAC: U32 := 3
  const TARGET_LAST: U32 := 4
  const TARGET_AUTO: U32 := 5
  const TARGET_ALIAS: U32 := 6
  const TARGET_DEFAULT: U32 := 7

  const NUL: U16 := 0
  const NEWLINE: U16 := 10
  const RETURN: U16 := 13

  type Text = seq<U16>

  datatype CorrelationId = CorrelationId(high: U64, low: U64) {
    predicate Empty() { high == 0 && low == 0 }
  }

  datatype Request = Request(command: U32, target: U32, flags: U32, payload: Text, correlation: CorrelationId)

  datatype Response = Response(code: U32, payload: Text, correlation: CorrelationId)

  datatype RequestHeader = RequestHeader(
    magic: U32, version: U32, correlationHigh: U64, correlationLow: U64,
    command: U32, target: U32, flags: U32, payloadBytes: U32)

  datatype ResponseHeader = ResponseHeader(
    magic: U32, version: U32, correlationHigh: U64, correlationLow: U64, exitCode: U32, payloadBytes: U32)

  datatype Acknowledgement = Acknowledgement(magic: U32, version: U32, correlationHigh: U64, correlationLow: U64)

  // ---- validation

  predicate IsPayloadByteCountValid(byteCount: U32) {
    byteCount <= MAX_PAYLOAD_BYTES && byteCount % UNIT_BYTES == 0
  }

  predicate IsKnownCommand(value: U32) { LIST <= value <= ALIAS_LIST }

  predicate IsKnownTarget(value: U32) { value <= TARGET_DEFAULT }

  predicate IsKnownExitCode(value: U32) { value == 0 || 3 <= value <= 9 }

  /** No bit other than the two known flags is set. */
  predicate AreKnownFlags(flags: U32) { flags / 4 == 0 }

  predicate IsExplicitTarget(target: U32) {
    target in {TARGET_ID, TARGET_NAME, TARGET_MAC, TARGET_AUTO, TARGET_ALIAS}
  }

  /** Whether bit `k` of a number is set. */
  predicate HasBit(n: nat, k: nat) {
    if k == 0 then n % 2 == 1 else HasBit(n / 2, k - 1)
  }

  lemma {:induction false} ZeroHasNoBit(k: nat)
    ensures !HasBit(0, k)
  {
    if k > 0 {
      ZeroHasNoBit(k - 1);
    }
  }

  lemma {:induction false} PositiveHasBit(n: nat) returns (k: nat)
    requires n > 0
    ensures HasBit(n, k)
  {
    if n % 2 == 1 {
      k := 0;
    } else {
      k := PositiveHasBit(n / 2);
      k := k + 1;
    }
  }

  lemma HigherBits(n: nat, k: nat)
    requires k >= 2
    ensures HasBit(n, k) == HasBit(n / 4, k - 2)
  {
    assert n / 2 / 2 == n / 4;
    assert HasBit(n, k) == HasBit(n / 2, k - 1);
    assert HasBit(n / 2, k - 1) == HasBit(n / 2 / 2, k - 2);
  }

  /** The flags are known exactly if no bit is set but the lowest two, for JSON and raw output. */
  lemma KnownFlagsByBits(flags: U32)
    ensures AreKnownFlags(flags) <==> !exists k :: k >= 2 && HasBit(flags, k)
  {
    if k :| k >= 2 && HasBit(flags, k) {
      HigherBits(flags, k);
      ZeroHasNoBit(k - 2);
    }
    if !AreKnownFlags(flags) {
      var k := PositiveHasBit(flags / 4);
      HigherBits(flags, k + 2);
    }
  }

  /** The ranges accept exactly the values that the protocol names. */
  lemma KnownValues(value: U32)
    ensures IsKnownCommand(value) <==>
            value in {LIST, STATUS, CONNECT, DISCONNECT, RECONNECT, TOGGLE_LAST, DISCONNECT_ALL, RECONNECT_ALL, SHOW,
                      SETTINGS, DEFAULT_SHOW, DEFAULT_SET, DEFAULT_CLEAR, ALIAS_SET, ALIAS_CLEAR, ALIAS_LIST}
    ensures IsKnownTarget(value) <==>
            value in {TARGET_NONE, TARGET_ID, TARGET_NAME, TARGET_MAC, TARGET_LAST, TARGET_AUTO, TARGET_ALIAS,
                      TARGET_DEFAULT}
    ensures IsKnownExitCode(value) <==> value in {0, 3, 4, 5, 6, 7, 8, 9}
  {
  }

  /** Position of the first unit of `text` from `start` on that is in `units`, if there is one. */
  function FindFirstOf(text: Text, units: set<U16>, start: nat): (r: Option<nat>)
    requires start <= |text|
    ensures r.Some? ==> start <= r.value < |text| && text[r.value] in units
    ensures forall i :: start <= i < (if r.Some? then r.value else |text|) ==> text[i] !in units
    decreases |text| - start
  {
    if start == |text| then None
    else if text[start] in units then Some(start)
    else FindFirstOf(text, units, start + 1)
  }

  predicate IsRequestValid(r: Request) {
    if r.correlation.Empty() || !IsKnownCommand(r.command) || !IsKnownTarget(r.target) || !AreKnownFlags(r.flags)
       || |r.payload| > MAX_PAYLOAD_BYTES / UNIT_BYTES || NUL in r.payload then
      false
    else if r.command in {LIST, STATUS, DISCONNECT_ALL, RECONNECT_ALL, SHOW, SETTINGS,
                          DEFAULT_SHOW, DEFAULT_CLEAR, ALIAS_LIST} then
      r.target == TARGET_NONE && r.payload == []
    else if r.command in {CONNECT, DISCONNECT, RECONNECT, TOGGLE_LAST} then
      (IsExplicitTarget(r.target) && r.payload != [])
      || (r.target in {TARGET_LAST, TARGET_DEFAULT} && r.payload == [])
    else if r.command in {DEFAULT_SET, ALIAS_CLEAR} then
      IsExplicitTarget(r.target) && r.payload != []
    else if r.command == ALIAS_SET then
      if !IsExplicitTarget(r.target) then false
      else
        var separator := FindFirstOf(r.payload, {NEWLINE}, 0);
        separator.Some? && separator.value > 0 && separator.value + 1 < |r.payload|
        && FindFirstOf(r.payload, {RETURN, NEWLINE}, separator.value + 1).None?
    else
      false
  }

  /** The typing of the result as a 32-bit value is the proof that the count never overflows. */
  function PayloadByteCount(payload: Text): (n: Option<U32>)
    ensures n.Some? <==> |payload| * UNIT_BYTES <= MAX_PAYLOAD_BYTES
    ensures n.Some? ==> IsPayloadByteCountValid(n.value) && n.value == |PackText(payload)|
  {
    if |payload| > U32_MAX / UNIT_BYTES then None
    else
      var byteCount: U32 := |payload| * UNIT_BYTES;
      if !IsPayloadByteCountValid(byteCount) then None else Some(byteCount)
  }

  predicate IsRequestHeaderValid(h: RequestHeader) {
    && h.magic == REQUEST_MAGIC && h.version == PROTOCOL_VERSION
    && !CorrelationId(h.correlationHigh, h.correlationLow).Empty()
    && IsKnownCommand(h.command) && IsKnownTarget(h.target) && AreKnownFlags(h.flags)
    && IsPayloadByteCountValid(h.payloadBytes)
  }

  predicate IsResponseHeaderValid(h: ResponseHeader) {
    && h.magic == RESPONSE_MAGIC && h.version == PROTOCOL_VERSION
    && !CorrelationId(h.correlationHigh, h.correlationLow).Empty()
    && IsKnownExitCode(h.exitCode) && IsPayloadByteCountValid(h.payloadBytes)
  }

  function MakeResponseHeader(r: Response): Option<ResponseHeader> {
    var payloadBytes := PayloadByteCount(r.payload);
    if payloadBytes.None? || r.correlation.Empty() || !IsKnownExitCode(r.code) then None
    else Some(ResponseHeader(RESPONSE_MAGIC, PROTOCOL_VERSION, r.correlation.high, r.correlation.low,
                             r.code, payloadBytes.value))
  }

  predicate IsAcknowledgementValid(a: Acknowledgement, expected: CorrelationId) {
    a.magic == ACKNOWLEDGEMENT_MAGIC && a.version == PROTOCOL_VERSION
    && a.correlationHigh == expected.high && a.correlationLow == expected.low
  }

  // ---- the three structs as bytes

  const REQUEST_LAYOUT: seq<nat> := [4, 4, 8, 8, 4, 4, 4, 4]
  const RESPONSE_LAYOUT: seq<nat> := [4, 4, 8, 8, 4, 4]
  const ACKNOWLEDGEMENT_LAYOUT: seq<nat> := [4, 4, 8, 8]

  lemma Sizes()
    ensures Size(REQUEST_LAYOUT) == 40 && Size(RESPONSE_LAYOUT) == 32 && Size(ACKNOWLEDGEMENT_LAYOUT) == 24
  {
  }

  function RequestHeaderFields(h: RequestHeader): seq<nat> {
    [h.magic, h.version, h.correlationHigh, h.correlationLow, h.command, h.target, h.flags, h.payloadBytes]
  }

  function ToRequestHeader(f: seq<nat>): RequestHeader
    requires Fits(f, REQUEST_LAYOUT)
  {
    Ranges();
    RequestHeader(Word(f, REQUEST_LAYOUT, 0), Word(f, REQUEST_LAYOUT, 1),
                  LongWord(f, REQUEST_LAYOUT, 2), LongWord(f, REQUEST_LAYOUT, 3),
                  Word(f, REQUEST_LAYOUT, 4), Word(f, REQUEST_LAYOUT, 5),
                  Word(f, REQUEST_LAYOUT, 6), Word(f, REQUEST_LAYOUT, 7))
  }

  function ResponseHeaderFields(h: ResponseHeader): seq<nat> {
    [h.magic, h.version, h.correlationHigh, h.correlationLow, h.exitCode, h.payloadBytes]
  }

  function ToResponseHeader(f: seq<nat>): ResponseHeader
    requires Fits(f, RESPONSE_LAYOUT)
  {
    ResponseHeader(Word(f, RESPONSE_LAYOUT, 0), Word(f, RESPONSE_LAYOUT, 1),
                   LongWord(f, RESPONSE_LAYOUT, 2), LongWord(f, RESPONSE_LAYOUT, 3),
                   Word(f, RESPONSE_LAYOUT, 4), Word(f, RESPONSE_LAYOUT, 5))
  }

  function AcknowledgementFields(a: Acknowledgement): seq<nat> {
    [a.magic, a.version, a.correlationHigh, a.correlationLow]
  }

  function ToAcknowledgement(f: seq<nat>): Acknowledgement
    requires Fits(f, ACKNOWLEDGEMENT_LAYOUT)
  {
    Acknowledgement(Word(f, ACKNOWLEDGEMENT_LAYOUT, 0), Word(f, ACKNOWLEDGEMENT_LAYOUT, 1),
                    LongWord(f, ACKNOWLEDGEMENT_LAYOUT, 2), LongWord(f, ACKNOWLEDGEMENT_LAYOUT, 3))
  }

  function Word(f: seq<nat>, layout: seq<nat>, i: nat): (w: U32)
    requires Fits(f, layout) && i < |layout| && layout[i] == 4
    ensures w == f[i]
  {
    Ranges();
    f[i]
  }

  function LongWord(f: seq<nat>, layout: seq<nat>, i: nat): (w: U64)
    requires Fits(f, layout) && i < |layout| && layout[i] == 8
    ensures w == f[i]
  {
    Ranges();
    f[i]
  }

  function PackRequestHeader(h: RequestHeader): (b: Bytes)
    ensures |b| == 40
  {
    Sizes();
    PackFields(RequestHeaderFields(h), REQUEST_LAYOUT)
  }

  function UnpackRequestHeader(b: Bytes): (h: RequestHeader)
    requires |b| == 40
    ensures PackRequestHeader(h) == b
  {
    Sizes();
    PackUndoesUnpack(b, REQUEST_LAYOUT);
    var h := ToRequestHeader(UnpackFields(b, REQUEST_LAYOUT));
    assert RequestHeaderFields(h) == UnpackFields(b, REQUEST_LAYOUT);
    h
  }

  lemma UnpackUndoesPackRequestHeader(h: RequestHeader)
    ensures UnpackRequestHeader(PackRequestHeader(h)) == h
  {
    Ranges();
    assert Fits(RequestHeaderFields(h), REQUEST_LAYOUT);
    UnpackUndoesPack(RequestHeaderFields(h), REQUEST_LAYOUT);
  }

  function PackResponseHeader(h: ResponseHeader): (b: Bytes)
    ensures |b| == 32
  {
    Sizes();
    PackFields(ResponseHeaderFields(h), RESPONSE_LAYOUT)
  }

  function UnpackResponseHeader(b: Bytes): (h: ResponseHeader)
    requires |b| == 32
    ensures PackResponseHeader(h) == b
  {
    Sizes();
    PackUndoesUnpack(b, RESPONSE_LAYOUT);
    var h := ToResponseHeader(UnpackFields(b, RESPONSE_LAYOUT));
    assert ResponseHeaderFields(h) == UnpackFields(b, RESPONSE_LAYOUT);
    h
  }

  lemma UnpackUndoesPackResponseHeader(h: ResponseHeader)
    ensures UnpackResponseHeader(PackResponseHeader(h)) == h
  {
    Ranges();
    assert Fits(ResponseHeaderFields(h), RESPONSE_LAYOUT);
    UnpackUndoesPack(ResponseHeaderFields(h), RESPONSE_LAYOUT);
  }

  function PackAcknowledgement(a: Acknowledgement): (b: Bytes)
    ensures |b| == 24
  {
    Sizes();
    PackFields(AcknowledgementFields(a), ACKNOWLEDGEMENT_LAYOUT)
  }

  function UnpackAcknowledgement(b: Bytes): (a: Acknowledgement)
    requires |b| == 24
    ensures PackAcknowledgement(a) == b
  {
    Sizes();
    PackUndoesUnpack(b, ACKNOWLEDGEMENT_LAYOUT);
    var a := ToAcknowledgement(UnpackFields(b, ACKNOWLEDGEMENT_LAYOUT));
    assert AcknowledgementFields(a) == UnpackFields(b, ACKNOWLEDGEMENT_LAYOUT);
    a
  }

  /** Where each field of a request header stands. */
  lemma RequestHeaderBytes(h: RequestHeader)
    ensures var b := PackRequestHeader(h);
            && b[0..4] == LittleEndian(h.magic, 4) && b[4..8] == LittleEndian(h.version, 4)
            && b[8..16] == LittleEndian(h.correlationHigh, 8) && b[16..24] == LittleEndian(h.correlationLow, 8)
            && b[24..28] == LittleEndian(h.command, 4) && b[28..32] == LittleEndian(h.target, 4)
            && b[32..36] == LittleEndian(h.flags, 4) && b[36..40] == LittleEndian(h.payloadBytes, 4)
  {
    RequestOffsets();
    forall i | 0 <= i < 8
      ensures PackRequestHeader(h)[Offset(REQUEST_LAYOUT, i)..Offset(REQUEST_LAYOUT, i) + REQUEST_LAYOUT[i]] ==
              LittleEndian(RequestHeaderFields(h)[i], REQUEST_LAYOUT[i])
    {
      FieldAt(RequestHeaderFields(h), REQUEST_LAYOUT, i);
    }
  }

  lemma RequestOffsets()
    ensures Offset(REQUEST_LAYOUT, 0) == 0 && Offset(REQUEST_LAYOUT, 1) == 4 && Offset(REQUEST_LAYOUT, 2) == 8
    ensures Offset(REQUEST_LAYOUT, 3) == 16 && Offset(REQUEST_LAYOUT, 4) == 24 && Offset(REQUEST_LAYOUT, 5) == 28
    ensures Offset(REQUEST_LAYOUT, 6) == 32 && Offset(REQUEST_LAYOUT, 7) == 36
  {
  }

  lemma ResponseHeaderBytes(h: ResponseHeader)
    ensures var b := PackResponseHeader(h);
            && b[0..4] == LittleEndian(h.magic, 4) && b[4..8] == LittleEndian(h.version, 4)
            && b[8..16] == LittleEndian(h.correlationHigh, 8) && b[16..24] == LittleEndian(h.correlationLow, 8)
            && b[24..28] == LittleEndian(h.exitCode, 4) && b[28..32] == LittleEndian(h.payloadBytes, 4)
  {
    ResponseOffsets();
    forall i | 0 <= i < 6
      ensures PackResponseHeader(h)[Offset(RESPONSE_LAYOUT, i)..Offset(RESPONSE_LAYOUT, i) + RESPONSE_LAYOUT[i]] ==
              LittleEndian(ResponseHeaderFields(h)[i], RESPONSE_LAYOUT[i])
    {
      FieldAt(ResponseHeaderFields(h), RESPONSE_LAYOUT, i);
    }
  }

  lemma ResponseOffsets()
    ensures Offset(RESPONSE_LAYOUT, 0) == 0 && Offset(RESPONSE_LAYOUT, 1) == 4 && Offset(RESPONSE_LAYOUT, 2) == 8
    ensures Offset(RESPONSE_LAYOUT, 3) == 16 && Offset(RESPONSE_LAYOUT, 4) == 24 && Offset(RESPONSE_LAYOUT, 5) == 28
  {
  }

  lemma AcknowledgementOffsets()
    ensures Offset(ACKNOWLEDGEMENT_LAYOUT, 0) == 0 && Offset(ACKNOWLEDGEMENT_LAYOUT, 1) == 4
    ensures Offset(ACKNOWLEDGEMENT_LAYOUT, 2) == 8 && Offset(ACKNOWLEDGEMENT_LAYOUT, 3) == 16
  {
  }

  lemma AcknowledgementBytes(a: Acknowledgement)
    ensures PackAcknowledgement(a) == LittleEndian(a.magic, 4) + LittleEndian(a.version, 4)
                                      + LittleEndian(a.correlationHigh, 8) + LittleEndian(a.correlationLow, 8)
  {
    var b := PackAcknowledgement(a);
    AcknowledgementOffsets();
    forall i | 0 <= i < 4
      ensures b[Offset(ACKNOWLEDGEMENT_LAYOUT, i)..Offset(ACKNOWLEDGEMENT_LAYOUT, i) + ACKNOWLEDGEMENT_LAYOUT[i]] ==
              LittleEndian(AcknowledgementFields(a)[i], ACKNOWLEDGEMENT_LAYOUT[i])
    {
      FieldAt(AcknowledgementFields(a), ACKNOWLEDGEMENT_LAYOUT, i);
    }
    assert b == b[0..4] + b[4..8] + b[8..16] + b[16..24];
  }

  /** The first eight bytes of the three kinds of message: ACQ2, ACR2 and ACA2 in ASCII, and version 2. */
  const REQUEST_START: Bytes := [0x41, 0x43, 0x51, 0x32, 2, 0, 0, 0]
  const RESPONSE_START: Bytes := [0x41, 0x43, 0x52, 0x32, 2, 0, 0, 0]
  const ACKNOWLEDGEMENT_START: Bytes := [0x41, 0x43, 0x41, 0x32, 2, 0, 0, 0]

  lemma Starts()
    ensures LittleEndian(REQUEST_MAGIC, 4) + LittleEndian(PROTOCOL_VERSION, 4) == REQUEST_START
    ensures LittleEndian(RESPONSE_MAGIC, 4) + LittleEndian(PROTOCOL_VERSION, 4) == RESPONSE_START
    ensures LittleEndian(ACKNOWLEDGEMENT_MAGIC, 4) + LittleEndian(PROTOCOL_VERSION, 4) == ACKNOWLEDGEMENT_START
  {
  }

  /** Of all 24 bytes a reader may get, it accepts exactly one sequence. */
  lemma AcknowledgementAcceptedIff(b: Bytes, expected: CorrelationId)
    requires |b| == 24
    ensures IsAcknowledgementValid(UnpackAcknowledgement(b), expected) <==>
            b == ACKNOWLEDGEMENT_START + LittleEndian(expected.high, 8) + LittleEndian(expected.low, 8)
  {
    var a := Acknowledgement(ACKNOWLEDGEMENT_MAGIC, PROTOCOL_VERSION, expected.high, expected.low);
    Starts();
    AcknowledgementBytes(a);
    AcknowledgementRoundTrip(expected, expected);
  }

  /** A reader that expects `expected` accepts the acknowledgement written for `c` exactly if it is
      the same correlation id. */
  lemma AcknowledgementRoundTrip(c: CorrelationId, expected: CorrelationId)
    ensures var written := PackAcknowledgement(Acknowledgement(ACKNOWLEDGEMENT_MAGIC, PROTOCOL_VERSION, c.high, c.low));
            IsAcknowledgementValid(UnpackAcknowledgement(written), expected) <==> c == expected
  {
    var a := Acknowledgement(ACKNOWLEDGEMENT_MAGIC, PROTOCOL_VERSION, c.high, c.low);
    Ranges();
    assert Fits(AcknowledgementFields(a), ACKNOWLEDGEMENT_LAYOUT);
    UnpackUndoesPack(AcknowledgementFields(a), ACKNOWLEDGEMENT_LAYOUT);
  }

  // ---- frames

  datatype Parsed<T> = Frame(value: T, rest: Bytes) | NeedMore | Malformed

  /** The header that the writer fills in for a request. */
  function HeaderFor(r: Request): RequestHeader
    requires PayloadByteCount(r.payload).Some?
  {
    RequestHeader(REQUEST_MAGIC, PROTOCOL_VERSION, r.correlation.high, r.correlation.low,
                  r.command, r.target, r.flags, PayloadByteCount(r.payload).value)
  }

  /** What the writer sends, if it accepts the request. */
  function WriteRequest(r: Request): Option<Bytes> {
    if PayloadByteCount(r.payload).None? || !IsRequestValid(r) then None
    else Some(PackRequestHeader(HeaderFor(r)) + PackText(r.payload))
  }

  function ParseRequest(b: Bytes): Parsed<Request> {
    if |b| < 40 then NeedMore
    else
      var h := UnpackRequestHeader(b[..40]);
      if !IsRequestHeaderValid(h) then Malformed
      else if |b| < 40 + h.payloadBytes then NeedMore
      else
        var r := Request(h.command, h.target, h.flags, UnpackText(b[40..40 + h.payloadBytes]),
                         CorrelationId(h.correlationHigh, h.correlationLow));
        if IsRequestValid(r) then Frame(r, b[40 + h.payloadBytes..]) else Malformed
  }

  function WriteResponse(r: Response): Option<Bytes> {
    var h := MakeResponseHeader(r);
    if h.None? then None else Some(PackResponseHeader(h.value) + PackText(r.payload))
  }

  function ParseResponse(b: Bytes): Parsed<Response> {
    if |b| < 32 then NeedMore
    else
      var h := UnpackResponseHeader(b[..32]);
      if !IsResponseHeaderValid(h) then Malformed
      else if |b| < 32 + h.payloadBytes then NeedMore
      else
        Frame(Response(h.exitCode, UnpackText(b[32..32 + h.payloadBytes]),
                       CorrelationId(h.correlationHigh, h.correlationLow)),
              b[32 + h.payloadBytes..])
  }

  lemma RequestStart(h: RequestHeader)
    requires h.magic == REQUEST_MAGIC && h.version == PROTOCOL_VERSION
    ensures PackRequestHeader(h)[..8] == REQUEST_START
  {
    Starts();
    RequestHeaderBytes(h);
    var b := PackRequestHeader(h);
    assert b[..8] == b[0..4] + b[4..8];
  }

  lemma ResponseStart(h: ResponseHeader)
    requires h.magic == RESPONSE_MAGIC && h.version == PROTOCOL_VERSION
    ensures PackResponseHeader(h)[..8] == RESPONSE_START
  {
    Starts();
    ResponseHeaderBytes(h);
    var b := PackResponseHeader(h);
    assert b[..8] == b[0..4] + b[4..8];
  }

  /** A stream that does not start with the magic and the version is rejected. */
  lemma WrongStartIsRejected(b: Bytes)
    ensures |b| >= 40 && b[..8] != REQUEST_START ==> ParseRequest(b) == Malformed
    ensures |b| >= 32 && b[..8] != RESPONSE_START ==> ParseResponse(b) == Malformed
  {
    if |b| >= 40 && b[..8] != REQUEST_START {
      var h := UnpackRequestHeader(b[..40]);
      assert b[..40][..8] == b[..8];
      if h.magic == REQUEST_MAGIC && h.version == PROTOCOL_VERSION {
        RequestStart(h);
        assert false;
      }
    }
    if |b| >= 32 && b[..8] != RESPONSE_START {
      var h := UnpackResponseHeader(b[..32]);
      assert b[..32][..8] == b[..8];
      if h.magic == RESPONSE_MAGIC && h.version == PROTOCOL_VERSION {
        ResponseStart(h);
        assert false;
      }
    }
  }

  /** Every valid request is written, under a header that the reader accepts. */
  lemma ValidRequestsAreWritten(r: Request)
    ensures WriteRequest(r).Some? <==> IsRequestValid(r)
    ensures IsRequestValid(r) ==> PayloadByteCount(r.payload).Some? && IsRequestHeaderValid(HeaderFor(r))
  {
  }

  /** A response is written exactly if it carries a correlation id, a known code and not too much text. */
  lemma ResponsesAreWrittenIff(r: Response)
    ensures WriteResponse(r).Some? <==>
            && (r.correlation.high != 0 || r.correlation.low != 0)
            && r.code in {0, 3, 4, 5, 6, 7, 8, 9}
            && 2 * |r.payload| <= 65536
  {
  }

  lemma ParseWritten(r: Request, rest: Bytes)
    requires IsRequestValid(r)
    ensures WriteRequest(r).Some? && ParseRequest(WriteRequest(r).value + rest) == Frame(r, rest)
  {
    var header, text := PackRequestHeader(HeaderFor(r)), PackText(r.payload);
    var b := header + text + rest;
    assert b[..40] == header;
    UnpackUndoesPackRequestHeader(HeaderFor(r));
    var n := 40 + |text|;
    assert b[40..n] == text && b[n..] == rest;
    UnpackUndoesPackText(r.payload);
  }

  lemma ParsedWasWritten(b: Bytes)
    requires ParseRequest(b).Frame?
    ensures WriteRequest(ParseRequest(b).value).Some?
    ensures b == WriteRequest(ParseRequest(b).value).value + ParseRequest(b).rest
  {
    var h := UnpackRequestHeader(b[..40]);
    var n := 40 + h.payloadBytes;
    var r := ParseRequest(b).value;
    PackUndoesUnpackText(b[40..n]);
    assert HeaderFor(r) == h;
    assert b == b[..40] + b[40..n] + b[n..];
  }

  /** Parsing is the exact inverse of writing, on every byte stream. */
  lemma RequestFramesExactly(b: Bytes, r: Request, rest: Bytes)
    ensures ParseRequest(b) == Frame(r, rest) <==>
            WriteRequest(r).Some? && b == WriteRequest(r).value + rest
  {
    if ParseRequest(b).Frame? {
      ParsedWasWritten(b);
    }
    if WriteRequest(r).Some? {
      ParseWritten(r, rest);
    }
  }

  lemma ParseWrittenResponse(r: Response, rest: Bytes)
    requires MakeResponseHeader(r).Some?
    ensures ParseResponse(WriteResponse(r).value + rest) == Frame(r, rest)
  {
    var h := MakeResponseHeader(r).value;
    var header, text := PackResponseHeader(h), PackText(r.payload);
    var b := header + text + rest;
    assert b[..32] == header;
    UnpackUndoesPackResponseHeader(h);
    var n := 32 + |text|;
    assert b[32..n] == text && b[n..] == rest;
    UnpackUndoesPackText(r.payload);
  }

  lemma ParsedResponseWasWritten(b: Bytes)
    requires ParseResponse(b).Frame?
    ensures WriteResponse(ParseResponse(b).value).Some?
    ensures b == WriteResponse(ParseResponse(b).value).value + ParseResponse(b).rest
  {
    var h := UnpackResponseHeader(b[..32]);
    var n := 32 + h.payloadBytes;
    PackUndoesUnpackText(b[32..n]);
    assert MakeResponseHeader(ParseResponse(b).value) == Some(h);
    assert b == b[..32] + b[32..n] + b[n..];
  }

  lemma ResponseFramesExactly(b: Bytes, r: Response, rest: Bytes)
    ensures ParseResponse(b) == Frame(r, rest) <==>
            WriteResponse(r).Some? && b == WriteResponse(r).value + rest
  {
    if ParseResponse(b).Frame? {
      ParsedResponseWasWritten(b);
    }
    if WriteResponse(r).Some? {
      ParseWrittenResponse(r, rest);
    }
  }

  /** A frame that has not arrived completely is neither accepted nor rejected. */
  lemma PartOfFrameNeedsMore(r: Request, k: nat)
    requires IsRequestValid(r) && WriteRequest(r).Some? && k < |WriteRequest(r).value|
    ensures ParseRequest(WriteRequest(r).value[..k]) == NeedMore
  {
    var b := WriteRequest(r).value;
    if k >= 40 {
      assert b[..k][..40] == PackRequestHeader(HeaderFor(r));
      UnpackUndoesPackRequestHeader(HeaderFor(r));
    }
  }

  // ---- streams of frames

  ghost predicate AllValid(rs: seq<Request>) {
    forall i :: 0 <= i < |rs| ==> IsRequestValid(rs[i])
  }

  ghost function Stream(rs: seq<Request>): Bytes
    requires AllValid(rs)
  {
    if rs == [] then []
    else
      ValidRequestsAreWritten(rs[0]);
      WriteRequest(rs[0]).value + Stream(rs[1..])
  }

  /** Splits a whole stream into requests; none if it does not consist of complete frames. */
  ghost function ParseStream(b: Bytes): Option<seq<Request>>
    decreases |b|
  {
    if b == [] then Some([])
    else
      match ParseRequest(b)
      case Frame(r, rest) =>
        var more := ParseStream(rest);
        if more.None? then None else Some([r] + more.value)
      case _ => None
  }

  lemma {:induction false} StreamParses(rs: seq<Request>)
    requires AllValid(rs)
    ensures ParseStream(Stream(rs)) == Some(rs)
  {
    if rs != [] {
      StreamParses(rs[1..]);
      ParseWritten(rs[0], Stream(rs[1..]));
      assert [rs[0]] + rs[1..] == rs;
    }
  }

  lemma {:induction false} ParsedIsStream(b: Bytes)
    requires ParseStream(b).Some?
    ensures AllValid(ParseStream(b).value) && Stream(ParseStream(b).value) == b
    decreases |b|
  {
    if b != [] {
      var r, rest := ParseRequest(b).value, ParseRequest(b).rest;
      RequestFramesExactly(b, r, rest);
      ValidRequestsAreWritten(r);
      ParsedIsStream(rest);
      assert ParseStream(b).value[1..] == ParseStream(rest).value;
    }
  }

  /** Concatenated frames split back into exactly the requests written, and in no other way. */
  lemma StreamSplitsUniquely(b: Bytes, rs: seq<Request>)
    ensures ParseStream(b) == Some(rs) <==> AllValid(rs) && b == Stream(rs)
  {
    if ParseStream(b).Some? {
      ParsedIsStream(b);
    }
    if AllValid(rs) {
      StreamParses(rs);
    }
  }
}
