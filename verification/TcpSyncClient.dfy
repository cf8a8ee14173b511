/** NESESLIB/TcpSyncClient.cpp: ExtractSingleResponse and the read loop of Send.

    The socket is a list of arrivals: chunks of bytes, cut up in any way, and failures; an exhausted list is the peer's
    end of file. What `available` answers is arbitrary, and recorded.
 */
module TcpSyncClient {
  import opened Framing
  import opened Runs

  datatype Error = Eof | Failed

  datatype Arrival = Chunk(bytes: string) | Failure

  /** The bytes that arrive before the first failure or the end of file. */
  function Bytes(arrivals: seq<Arrival>): string {
    if arrivals == [] || arrivals[0].Failure? then "" else arrivals[0].bytes + Bytes(arrivals[1..])
  }

  class StreamBuf {
    var data: string

    constructor ()
      ensures data == ""
    {
      data := "";
    }
  }

  class Socket {
    var arrivals: seq<Arrival>
    ghost var answers: seq<nat>   // what `available` has answered so far

    ghost function Incoming(): string
      reads this
    {
      Bytes(arrivals)
    }

    /** How many bytes can be read at once, as far as the operating system knows. */
    method Available() returns (bytes: nat)
      modifies this`answers
      ensures answers == old(answers) + [bytes]
    {
      bytes := *;
      answers := answers + [bytes];
    }

    /** boost::asio::read_until: reads until the buffer holds the delimiter and returns the length up to its end; on
        an error the length is 0. The buffer may end up with bytes beyond the delimiter. */
    method ReadUntil(buf: StreamBuf, delim: string) returns (length: nat, error: Option<Error>)
      modifies this`arrivals, buf
      ensures error.None? ==>
                && buf.data + Incoming() == old(buf.data + Incoming())
                && length >= |delim| && Find(buf.data, delim) == Some(length - |delim|)
      ensures error.None? && Find(old(buf.data), delim).Some? ==> arrivals == old(arrivals) && buf.data == old(buf.data)
      ensures error.Some? ==>
                length == 0 && buf.data == old(buf.data + Incoming()) && Find(buf.data, delim) == None
    {
      assert buf.data + Incoming() == old(buf.data + Incoming());
      while Find(buf.data, delim).None?
        invariant buf.data + Incoming() == old(buf.data + Incoming())
        invariant Find(old(buf.data), delim).Some? ==> buf.data == old(buf.data) && arrivals == old(arrivals)
        decreases |arrivals|
      {
        if arrivals == [] {
          return 0, Some(Eof);
        }
        var next := arrivals[0];
        arrivals := arrivals[1..];
        if next.Failure? {
          return 0, Some(Failed);
        }
        ConcatAssociates(buf.data, next.bytes, Incoming());
        buf.data := buf.data + next.bytes;
      }
      length, error := Find(buf.data, delim).value + |delim|, None;
    }
  }

  /** Takes one message and its delimiter off the buffer and appends the message to the response; returns what is left
      in the buffer. */
  method ExtractSingleResponse(buf: StreamBuf, response: string, delim: string) returns (size: nat, response': string)
    modifies buf
    ensures size == |buf.data|
    ensures var f := Find(old(buf.data), delim);
            if delim == "" || f.None? then buf.data == old(buf.data) && response' == response
            else buf.data == old(buf.data)[f.value + |delim|..] && response' == response + old(buf.data)[..f.value]
  {
    size, response' := |buf.data|, response;
    if size == 0 || |delim| == 0 {
      return;
    }
    var pos := Find(buf.data, delim);
    if pos.Some? {
      response' := response + buf.data[..pos.value];
      buf.data := buf.data[pos.value + |delim|..];
    }
    size := |buf.data|;
  }

  lemma {:induction false} ConcatSplits(xs: seq<string>, ys: seq<string>)
    ensures Concat(xs + ys) == Concat(xs) + Concat(ys)
  {
    if xs == [] {
      assert xs + ys == ys;
    } else {
      assert (xs + ys)[1..] == xs[1..] + ys;
      ConcatSplits(xs[1..], ys);
    }
  }

  lemma OneFrame(m: string, d: string)
    requires d != "" && Clean(m, d)
    ensures Messages(m + d, d) == [m] && Rest(m + d, d) == ""
  {
    CutFirst(m, "", d);
    assert m + d + "" == m + d;
  }

  /** One more complete frame was read off the stream. */
  lemma FrameRead(taken: string, m: string, d: string)
    requires d != "" && Rest(taken, d) == "" && Clean(m, d)
    ensures Rest(taken + (m + d), d) == "" && Messages(taken + (m + d), d) == Messages(taken, d) + [m]
    ensures Concat(Messages(taken + (m + d), d)) == Concat(Messages(taken, d)) + m
  {
    OneFrame(m, d);
    CutAppend(taken, m + d, d);
    ConcatSplits(Messages(taken, d), [m]);
    assert Concat([m]) == m + Concat([]);
  }

  /** The read loop has taken `taken` off the stream, all of it complete frames whose messages make up the response;
      `unread` is still to come. */
  ghost predicate InStep(stream: string, taken: string, unread: string, response: string, d: string) {
    && taken + unread == stream
    && (if d == "" then taken == "" && response == ""
        else Rest(taken, d) == "" && response == Concat(Messages(taken, d)))
  }

  lemma FrameStep(stream: string, taken: string, data: string, incoming: string, i: nat, response: string, d: string)
    returns (taken': string)
    requires d != "" && InStep(stream, taken, data + incoming, response, d) && Find(data, d) == Some(i)
    ensures |taken'| == |taken| + i + |d| && |Messages(taken', d)| == |Messages(taken, d)| + 1
    ensures InStep(stream, taken', data[i + |d|..] + incoming, response + data[..i], d)
  {
    var m, data' := data[..i], data[i + |d|..];
    assert data == (m + d) + data';
    FindLocal(data, m + d, d, i);
    FrameRead(taken, m, d);
    ConcatAssociates(m + d, data', incoming);
    ConcatAssociates(taken, m + d, data' + incoming);
    taken' := taken + (m + d);
  }

  /** One turn of the read loop: read until a delimiter is there, then take one frame off the buffer. */
  method ReadFrame(
      socket: Socket, recvBuf: StreamBuf, response: string, delim: string, ghost stream: string, ghost taken: string)
    returns (length: nat, response': string, error: Option<Error>, ghost taken': string)
    requires InStep(stream, taken, recvBuf.data + socket.Incoming(), response, delim)
    requires delim == "" ==> recvBuf.data == ""
    modifies socket`arrivals, recvBuf
    ensures |taken'| == |taken| + length
    ensures error.Some? ==> length == 0 && taken' == taken && response' == response
    ensures delim == "" ==> error.None? && recvBuf.data == ""
    ensures delim != "" && error.None? ==> length >= |delim|
    ensures delim != "" && error.None? ==> |Messages(taken', delim)| == |Messages(taken, delim)| + 1
    ensures if error.None? then InStep(stream, taken', recvBuf.data + socket.Incoming(), response', delim)
            else InStep(stream, taken', recvBuf.data, response', delim) && Find(recvBuf.data, delim) == None
  {
    response', taken' := response, taken;
    length, error := socket.ReadUntil(recvBuf, delim);
    if error.Some? {
      return;
    }
    var buffSize := |recvBuf.data|;
    if buffSize == 0 || |delim| == 0 {
      return;
    }
    ghost var data, i := recvBuf.data, length - |delim|;
    taken' := FrameStep(stream, taken, data, socket.Incoming(), i, response, delim);
    buffSize, response' := ExtractSingleResponse(recvBuf, response, delim);
    assert recvBuf.data == data[i + |delim|..] && response' == response + data[..i];
  }

  /** After each frame something was left in the buffer or could be read. */
  ghost predicate GoesOn(left: seq<nat>, answers: seq<nat>) {
    |left| == |answers| && forall i :: 0 <= i < |left| ==> left[i] > 0 || answers[i] > 0
  }

  /** After the last frame neither, and after each one before it something. */
  ghost predicate StopsThere(left: seq<nat>, answers: seq<nat>) {
    && |left| == |answers| && left != []
    && left[|left| - 1] == 0 && answers[|left| - 1] == 0
    && GoesOn(left[..|left| - 1], answers[..|left| - 1])
  }

  lemma AskedOnce(left: seq<nat>, answers: seq<nat>, n: nat, bytes: nat, readable: nat)
    requires n <= |answers| && GoesOn(left, answers[n..])
    ensures if bytes > 0 || readable > 0 then GoesOn(left + [bytes], (answers + [readable])[n..])
            else StopsThere(left + [bytes], (answers + [readable])[n..])
  {
    assert (answers + [readable])[n..] == answers[n..] + [readable];
    assert (left + [bytes])[..|left|] == left && (answers[n..] + [readable])[..|left|] == answers[n..];
  }

  /** The read loop of Send; `taken` is what the reported bytes were. After each frame it looks at what is left in its
      buffer and at what `available` answers, `left` and `answers`, and goes on while either is not 0.

      On success the loop has taken at least one frame and only complete frames off the stream, left nothing behind in
      its own buffer, and the response is their messages, concatenated. On an error it has done the same for every
      complete frame that arrived, and `lost`, what arrived after the last delimiter, is thrown away with the buffer. */
  method Receive(socket: Socket, delim: string)
    returns (bytesReceived: nat, response: string, error: Option<Error>, ghost taken: string, ghost lost: string,
             ghost left: seq<nat>)
    modifies socket
    ensures old(socket.answers) <= socket.answers
    ensures if error.None? && delim != "" then StopsThere(left, socket.answers[|old(socket.answers)|..])
            else GoesOn(left, socket.answers[|old(socket.answers)|..])
    ensures if delim == "" then left == [] else |Messages(taken, delim)| == |left|
    ensures bytesReceived == |taken|
    ensures error.None? ==> InStep(old(socket.Incoming()), taken, socket.Incoming(), response, delim)
    ensures error.None? && delim != "" ==> bytesReceived > 0
    ensures error.Some? ==> delim != "" && InStep(old(socket.Incoming()), taken, lost, response, delim)
    ensures error.Some? ==> Find(lost, delim) == None
  {
    var recvBuf := new StreamBuf();
    bytesReceived, response, error, taken, lost, left := 0, "", None, "", "", [];
    ghost var stream, n := socket.Incoming(), |socket.answers|;
    while true
      invariant InStep(stream, taken, recvBuf.data + socket.Incoming(), response, delim)
      invariant |taken| == bytesReceived && (delim == "" ==> recvBuf.data == "")
      invariant old(socket.answers) <= socket.answers && GoesOn(left, socket.answers[n..])
      invariant if delim == "" then left == [] else |Messages(taken, delim)| == |left|
      decreases |stream| - |taken|
    {
      var length;
      length, response, error, taken := ReadFrame(socket, recvBuf, response, delim, stream, taken);
      bytesReceived := bytesReceived + length;
      if error.Some? {
        lost := recvBuf.data;
        return;
      }
      if |delim| == 0 {
        assert recvBuf.data + socket.Incoming() == socket.Incoming();
        return;
      }
      ghost var before := socket.answers;
      var bytesReadable := socket.Available();
      AskedOnce(left, before, n, |recvBuf.data|, bytesReadable);
      left := left + [|recvBuf.data|];
      if !(|recvBuf.data| > 0 || bytesReadable > 0) {
        assert recvBuf.data + socket.Incoming() == socket.Incoming();
        return;
      }
    }
  }

  /** What an error leaves: the response is every message of the stream, and the rest of the stream is lost. */
  lemma ErrorMeansDrained(stream: string, taken: string, lost: string, response: string, d: string)
    requires d != "" && InStep(stream, taken, lost, response, d) && Find(lost, d) == None
    ensures response == Concat(Messages(stream, d)) && lost == Rest(stream, d)
  {
    CutAppend(taken, lost, d);
    assert Messages(taken, d) + Messages(lost, d) == Messages(taken, d);
  }

  /** How the stream was cut into chunks decides only when the loop stops: of two reads of one stream, the one that
      took more bytes got the other's response and more. */
  lemma ChunkingDecidesOnlyWhereToStop(
      stream: string, taken1: string, unread1: string, response1: string, taken2: string, unread2: string,
      response2: string, d: string)
    requires d != "" && InStep(stream, taken1, unread1, response1, d) && InStep(stream, taken2, unread2, response2, d)
    requires |taken1| <= |taken2|
    ensures response1 <= response2
    ensures |taken1| == |taken2| ==> response1 == response2
  {
    var more := taken2[|taken1|..];
    assert taken2 == stream[..|taken2|] && taken1 == stream[..|taken1|];
    assert taken2 == taken1 + more;
    CutAppend(taken1, more, d);
    ConcatSplits(Messages(taken1, d), Messages(more, d));
    if more == "" {
      assert taken1 == taken2;
    }
  }
}
