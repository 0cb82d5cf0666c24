/**
 Reading framed messages from a pipe that delivers bytes in arbitrary fragments and may fail at
 any point. Each transfer attempt is an entry of a script: a fragment that arrives, or the
 status with which the attempt fails (cancellation, deadline, a broken pipe). What the
 readers return is shown to depend only on the bytes, not on how they were cut up.
 */
module CommandPipe {
  import opened Words
  import opened WireFormat
  import opened CommandProtocol

  datatype IoStatus = Success | Timeout | Cancelled | Closed | InvalidData | Failed

  type Outage = s: IoStatus | s != Success && s != InvalidData witness Closed

  datatype Attempt = Arrives(data: Bytes) | Fails(status: Outage)

  /** The bytes that arrive before the first failure; an empty transfer counts as a closed pipe. */
  ghost function Available(script: seq<Attempt>): Bytes {
    if script == [] || script[0].Fails? || script[0].data == [] then []
    else script[0].data + Available(script[1..])
  }

  /** The status met by a reader that wants more than is available. */
  ghost function Ending(script: seq<Attempt>): Outage {
    if script == [] then Closed
    else if script[0].Fails? then script[0].status
    else if script[0].data == [] then Closed
    else Ending(script[1..])
  }

  ghost function Joined(fragments: seq<Bytes>): Bytes {
    if fragments == [] then [] else fragments[0] + Joined(fragments[1..])
  }

  ghost function Arrivals(fragments: seq<Bytes>): seq<Attempt> {
    seq(|fragments|, i requires 0 <= i < |fragments| => Arrives(fragments[i]))
  }

  /** What a script means, attempt by attempt: the fragments up to the first outage are available,
      however they were cut, and the outage is the ending, whatever comes after it; an empty transfer
      and the end of the script are a closed pipe. */
  lemma {:induction false} ScriptMeans(fragments: seq<Bytes>, tail: seq<Attempt>)
    requires forall i :: 0 <= i < |fragments| ==> fragments[i] != []
    requires tail == [] || tail[0].Fails? || tail[0].data == []
    ensures Available(Arrivals(fragments) + tail) == Joined(fragments)
    ensures Ending(Arrivals(fragments) + tail) ==
            if tail != [] && tail[0].Fails? then tail[0].status else Closed
  {
    var script := Arrivals(fragments) + tail;
    if fragments == [] {
      assert script == tail;
    } else {
      ScriptMeans(fragments[1..], tail);
      assert script[1..] == Arrivals(fragments[1..]) + tail;
    }
  }

  /** The script after `n` bytes of its first fragment have been taken. */
  function Taken(script: seq<Attempt>, n: nat): seq<Attempt>
    requires script != [] && script[0].Arrives? && n <= |script[0].data|
  {
    if n == |script[0].data| then script[1..] else [Arrives(script[0].data[n..])] + script[1..]
  }

  lemma TakingMovesBytes(script: seq<Attempt>, n: nat)
    requires script != [] && script[0].Arrives? && 0 < n <= |script[0].data|
    ensures Available(script) == script[0].data[..n] + Available(Taken(script, n))
    ensures Ending(Taken(script, n)) == Ending(script)
  {
    var data, rest := script[0].data, Available(script[1..]);
    assert data[..n] + (data[n..] + rest) == data + rest;
    if n < |data| {
      assert Taken(script, n)[1..] == script[1..];
    } else {
      assert data[..n] == data;
    }
  }

  class Pipe {
    var script: seq<Attempt>

    constructor (script: seq<Attempt>)
      ensures this.script == script
    {
      this.script := script;
    }

    method ReadExact(byteCount: nat) returns (status: IoStatus, data: Bytes)
      modifies this
      ensures |Available(old(script))| >= byteCount ==>
                && status == Success && data == Available(old(script))[..byteCount]
                && Available(script) == Available(old(script))[byteCount..] && Ending(script) == Ending(old(script))
      ensures |Available(old(script))| < byteCount ==> status == Ending(old(script))
    {
      data := [];
      var remaining := byteCount;
      while remaining > 0
        invariant 0 <= remaining && remaining + |data| == byteCount
        invariant data + Available(script) == Available(old(script))
        invariant Ending(script) == Ending(old(script))
      {
        if script == [] {
          return Closed, data;
        }
        var attempt := script[0];
        if attempt.Fails? {
          script := script[1..];
          return attempt.status, data;
        }
        var transferred := if |attempt.data| <= remaining then |attempt.data| else remaining;
        if transferred == 0 {
          script := script[1..];
          return Closed, data;
        }
        TakingMovesBytes(script, transferred);
        data := data + attempt.data[..transferred];
        script := Taken(script, transferred);
        remaining := remaining - transferred;
      }
      assert (data + Available(script))[..byteCount] == data;
      assert (data + Available(script))[byteCount..] == Available(script);
      status := Success;
    }

    method ReadRequest() returns (status: IoStatus, request: Option<Request>)
      modifies this
      ensures match ParseRequest(Available(old(script)))
              case Frame(r, rest) =>
                && status == Success && request == Some(r)
                && Available(script) == rest && Ending(script) == Ending(old(script))
              case NeedMore => status == Ending(old(script)) && request == None
              case Malformed => status == InvalidData && request == None
    {
      ghost var all := Available(script);
      request := None;
      var bytes: Bytes, text: Bytes;
      status, bytes := ReadExact(40);
      if status != Success {
        return;
      }
      var header := UnpackRequestHeader(bytes);
      if !IsRequestHeaderValid(header) {
        return InvalidData, None;
      }
      text := [];
      if header.payloadBytes > 0 {
        status, text := ReadExact(header.payloadBytes);
        if status != Success {
          return;
        }
      }
      assert text == all[40..40 + header.payloadBytes];
      var r := Request(header.command, header.target, header.flags, UnpackText(text),
                       CorrelationId(header.correlationHigh, header.correlationLow));
      if IsRequestValid(r) {
        return Success, Some(r);
      }
      return InvalidData, None;
    }

    method ReadResponse() returns (status: IoStatus, response: Option<Response>)
      modifies this
      ensures match ParseResponse(Available(old(script)))
              case Frame(r, rest) =>
                && status == Success && response == Some(r)
                && Available(script) == rest && Ending(script) == Ending(old(script))
              case NeedMore => status == Ending(old(script)) && response == None
              case Malformed => status == InvalidData && response == None
    {
      ghost var all := Available(script);
      response := None;
      var bytes: Bytes, text: Bytes;
      status, bytes := ReadExact(32);
      if status != Success {
        return;
      }
      var header := UnpackResponseHeader(bytes);
      if !IsResponseHeaderValid(header) {
        return InvalidData, None;
      }
      text := [];
      if header.payloadBytes > 0 {
        status, text := ReadExact(header.payloadBytes);
        if status != Success {
          return;
        }
      }
      assert text == all[32..32 + header.payloadBytes];
      return Success, Some(Response(header.exitCode, UnpackText(text),
                                    CorrelationId(header.correlationHigh, header.correlationLow)));
    }
  }

  lemma NextFrame(sent: seq<Request>, tail: Bytes)
    requires sent != [] && AllValid(sent)
    ensures ParseRequest(Stream(sent) + tail) == Frame(sent[0], Stream(sent[1..]) + tail)
  {
    ParseWritten(sent[0], Stream(sent[1..]) + tail);
    Associates(WriteRequest(sent[0]).value, Stream(sent[1..]), tail);
  }

  /** However a stream of valid requests is cut into fragments, the next read returns its first
      request and leaves exactly the others. */
  method ReadNext(pipe: Pipe, ghost sent: seq<Request>, ghost tail: Bytes) returns (request: Option<Request>)
    requires sent != [] && AllValid(sent) && Available(pipe.script) == Stream(sent) + tail
    modifies pipe
    ensures request == Some(sent[0]) && Available(pipe.script) == Stream(sent[1..]) + tail
  {
    NextFrame(sent, tail);
    var status;
    status, request := pipe.ReadRequest();
  }

  /** And so all of them come back in order, and what follows the stream is left untouched. */
  method ReadAll(pipe: Pipe, ghost sent: seq<Request>, ghost tail: Bytes, count: nat) returns (received: seq<Request>)
    requires AllValid(sent) && count == |sent| && Available(pipe.script) == Stream(sent) + tail
    modifies pipe
    ensures received == sent && Available(pipe.script) == tail
  {
    if count == 0 {
      return [];
    }
    var request := ReadNext(pipe, sent, tail);
    assert sent == [sent[0]] + sent[1..];
    var rest := ReadAll(pipe, sent[1..], tail, count - 1);
    received := [request.value] + rest;
  }
}
