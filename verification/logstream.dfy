/** The log tail of a container (StreamLogs): the runtime sends stdout and
    stderr multiplexed as frames
      [stream type][3 reserved bytes][payload length, big-endian u32][payload]
    and the handler forwards every non-empty payload as one text message to
    the client, in order, until the stream ends, a read fails or a write to
    the client fails. */
module LogStream {
  import opened Wrappers
  import opened Bytes
  import opened Seqs

  /** Header length: one stream-type byte, three reserved bytes, four length bytes */
  const HeaderSize: nat := 8

  /** The one message sent when the runtime refuses to open the log stream */
  const LogsUnavailable := "Error: Could not retrieve logs for container."

  /** What the handler asks the runtime for: both streams, followed live,
      starting from the last 100 lines */
  datatype LogsOptions = LogsOptions(showStdout: bool, showStderr: bool, follow: bool, tail: string)

  const FollowLogs := LogsOptions(true, true, true, "100")

  /** How the runtime's stream behaves once its bytes are used up */
  datatype Tail =
    | Eof     // closed cleanly: reads report end-of-file
    | Broken  // reads report some other error

  /** Everything the runtime delivers on the log stream, then how it ends */
  datatype Stream = Stream(data: seq<byte>, tail: Tail)

  /** The error kinds io.ReadFull distinguishes */
  datatype ReadError =
    | EndOfFile            // io.EOF: end of stream before any byte was read
    | UnexpectedEndOfFile  // io.ErrUnexpectedEOF: end of stream part-way
    | Failure              // any other error of the underlying reader

  datatype ReadResult = Full(bytes: seq<byte>) | Short(error: ReadError)

  /** io.ReadFull of n bytes at offset pos: all n bytes, or the error that cut the read short */
  function ReadFull(s: Stream, pos: nat, n: nat): (r: ReadResult)
    requires pos <= |s.data|
    requires 0 < n
    ensures r.Full? <==> pos + n <= |s.data|
    ensures r.Full? ==> r.bytes == s.data[pos..pos + n]
    ensures r.Short? && r.error == Failure <==> pos + n > |s.data| && s.tail == Broken
    ensures r.Short? && r.error == EndOfFile <==> pos == |s.data| && s.tail == Eof
    ensures r.Short? && r.error == UnexpectedEndOfFile <==> pos < |s.data| < pos + n && s.tail == Eof
  {
    if pos + n <= |s.data| then Full(s.data[pos..pos + n])
    else if s.tail.Broken? then Short(Failure)
    else if pos == |s.data| then Short(EndOfFile)
    else Short(UnexpectedEndOfFile)
  }

  /** Why the forwarding loop ended */
  datatype Stop =
    | Closed         // end of stream (io.EOF or io.ErrUnexpectedEOF) while reading a header
    | HeaderFailed   // another read error while reading a header
    | PayloadFailed  // any read error, end of stream included, while reading a payload
    | WriteFailed    // a message could not be written to the client

  /** The payloads a stream carries, in order, and why decoding stops */
  datatype Demuxed = Demuxed(payloads: seq<seq<byte>>, stop: Stop)

  /** The payload length a header declares: bytes 4..7, big-endian */
  function DeclaredLength(s: seq<byte>): nat
    requires |s| >= HeaderSize
  {
    Uint32BE(s[4..HeaderSize])
  }

  /** Reference decoding of the multiplexed stream, frame by frame. */
  function Demux(s: seq<byte>, tail: Tail): (r: Demuxed)
    ensures r.stop != WriteFailed
    decreases |s|
  {
    if |s| < HeaderSize then
      Demuxed([], if tail.Eof? then Closed else HeaderFailed)
    else
      var n := DeclaredLength(s);
      if n == 0 then Demux(s[HeaderSize..], tail)
      else if |s| - HeaderSize < n then Demuxed([], PayloadFailed)
      else
        var rest := Demux(s[HeaderSize + n..], tail);
        Demuxed([s[HeaderSize..HeaderSize + n]] + rest.payloads, rest.stop)
  }

  /** Every message the decoder emits is non-empty and shorter than 2^32 bytes */
  lemma {:induction false} DemuxPayloadSizes(s: seq<byte>, tail: Tail)
    ensures var r := Demux(s, tail);
      forall i :: 0 <= i < |r.payloads| ==> 0 < |r.payloads[i]| < Uint32Limit
    decreases |s|
  {
    DemuxStep(s, tail);
    if |s| >= HeaderSize {
      var n := DeclaredLength(s);
      if n == 0 {
        DemuxPayloadSizes(s[HeaderSize..], tail);
      } else if n <= |s| - HeaderSize {
        DemuxPayloadSizes(s[HeaderSize + n..], tail);
      }
    }
  }

  /** Demux consumes one header, and one payload when the header declares one */
  lemma DemuxStep(s: seq<byte>, tail: Tail)
    ensures |s| < HeaderSize ==> Demux(s, tail) == Demuxed([], if tail.Eof? then Closed else HeaderFailed)
    ensures |s| >= HeaderSize && DeclaredLength(s) == 0 ==> Demux(s, tail) == Demux(s[HeaderSize..], tail)
    ensures |s| >= HeaderSize && |s| - HeaderSize < DeclaredLength(s) ==> Demux(s, tail) == Demuxed([], PayloadFailed)
    ensures |s| >= HeaderSize && 0 < DeclaredLength(s) <= |s| - HeaderSize ==>
      var n := DeclaredLength(s);
      Demux(s, tail) == Demuxed([s[HeaderSize..HeaderSize + n]] + Demux(s[HeaderSize + n..], tail).payloads,
                                Demux(s[HeaderSize + n..], tail).stop)
  {
  }

  /** What one pass of the handler's loop finds before writing: an empty
      frame to skip, a payload to send, or the end of the stream */
  datatype Step = Skip(next: nat) | Payload(bytes: seq<byte>, next: nat) | End(stop: Stop)

  /** Read a header at pos and, when it declares a non-empty payload, the payload */
  function NextFrame(s: Stream, pos: nat): Step
    requires pos <= |s.data|
  {
    match ReadFull(s, pos, HeaderSize)
    case Short(e) => End(if e == Failure then HeaderFailed else Closed)
    case Full(header) =>
      var size := Uint32BE(header[4..]);
      if size == 0 then Skip(pos + HeaderSize)
      else match ReadFull(s, pos + HeaderSize, size)
        case Short(_) => End(PayloadFailed)
        case Full(payload) => Payload(payload, pos + HeaderSize + size)
  }

  /** One pass of the loop agrees with the reference decoding of the rest of the stream */
  lemma NextFrameAgrees(s: Stream, pos: nat)
    requires pos <= |s.data|
    ensures var r := NextFrame(s, pos);
      r.Skip? ==> pos < r.next <= |s.data| && Demux(s.data[pos..], s.tail) == Demux(s.data[r.next..], s.tail)
    ensures var r := NextFrame(s, pos);
      r.Payload? ==>
        && pos < r.next <= |s.data|
        && Demux(s.data[pos..], s.tail)
           == Demuxed([r.bytes] + Demux(s.data[r.next..], s.tail).payloads, Demux(s.data[r.next..], s.tail).stop)
    ensures var r := NextFrame(s, pos);
      r.End? ==> Demux(s.data[pos..], s.tail) == Demuxed([], r.stop)
  {
    NextFrameCases(s, pos);
    DemuxAt(s.data, pos, s.tail);
  }

  /** DemuxStep for the bytes from offset pos on */
  lemma DemuxAt(data: seq<byte>, pos: nat, tail: Tail)
    requires pos <= |data|
    ensures pos + HeaderSize > |data| ==>
      Demux(data[pos..], tail) == Demuxed([], if tail.Eof? then Closed else HeaderFailed)
    ensures pos + HeaderSize <= |data| ==>
      var n := DeclaredLength(data[pos..]);
      && (n == 0 ==> Demux(data[pos..], tail) == Demux(data[pos + HeaderSize..], tail))
      && (0 < n && pos + HeaderSize + n > |data| ==> Demux(data[pos..], tail) == Demuxed([], PayloadFailed))
      && (0 < n && pos + HeaderSize + n <= |data| ==>
            var later := Demux(data[pos + HeaderSize + n..], tail);
            Demux(data[pos..], tail) == Demuxed([data[pos + HeaderSize..pos + HeaderSize + n]] + later.payloads, later.stop))
  {
    var rest := data[pos..];
    DemuxStep(rest, tail);
    if pos + HeaderSize <= |data| {
      var n := DeclaredLength(rest);
      assert rest[HeaderSize..] == data[pos + HeaderSize..];
      if 0 < n && pos + HeaderSize + n <= |data| {
        assert data[pos + HeaderSize..pos + HeaderSize + n] == rest[HeaderSize..HeaderSize + n];
        assert rest[HeaderSize + n..] == data[pos + HeaderSize + n..];
      }
    }
  }

  /** What one pass of the loop finds, in terms of the bytes left from pos */
  lemma NextFrameCases(s: Stream, pos: nat)
    requires pos <= |s.data|
    ensures pos + HeaderSize > |s.data| ==>
      NextFrame(s, pos) == End(if s.tail.Eof? then Closed else HeaderFailed)
    ensures pos + HeaderSize <= |s.data| ==>
      var n := DeclaredLength(s.data[pos..]);
      NextFrame(s, pos) ==
        if n == 0 then Skip(pos + HeaderSize)
        else if pos + HeaderSize + n > |s.data| then End(PayloadFailed)
        else Payload(s.data[pos + HeaderSize..pos + HeaderSize + n], pos + HeaderSize + n)
  {
    if pos + HeaderSize <= |s.data| {
      assert s.data[pos..pos + HeaderSize][4..] == s.data[pos..][4..HeaderSize];
    }
  }

  /** The handler's loop (websocket.go, StreamLogs): read a header, skip empty
      frames, read the payload, send it. failingWrite is the index of the
      first message write that fails, if any. */
  method PumpFrames(s: Stream, failingWrite: Option<nat>) returns (sent: seq<seq<byte>>, stop: Stop)
    ensures var d := Demux(s.data, s.tail);
      if failingWrite.Some? && failingWrite.value < |d.payloads|
      then sent == d.payloads[..failingWrite.value] && stop == WriteFailed
      else sent == d.payloads && stop == d.stop
  {
    ghost var d := Demux(s.data, s.tail);
    sent := [];
    var pos := 0;
    while true
      invariant pos <= |s.data|
      invariant d.payloads == sent + Demux(s.data[pos..], s.tail).payloads
      invariant d.stop == Demux(s.data[pos..], s.tail).stop
      invariant failingWrite.Some? ==> |sent| <= failingWrite.value
      decreases |s.data| - pos
    {
      NextFrameAgrees(s, pos);
      var step := NextFrame(s, pos);
      match step
      case End(why) =>
        stop := why;
        return;
      case Skip(next) =>
        pos := next;
      case Payload(payload, next) =>
        ghost var later := Demux(s.data[next..], s.tail).payloads;
        Associative(sent, [payload], later);
        pos := next;
        if failingWrite == Some(|sent|) {
          stop := WriteFailed;
          assert d.payloads[..|sent|] == sent;
          return;
        }
        sent := sent + [payload];
    }
  }

  /** The one runtime call the handler makes */
  datatype LogsCall = ContainerLogs(container: string, options: LogsOptions)

  /** One logs session: the runtime call made, then what the client sees */
  datatype LogsSession =
    | Refused(call: LogsCall, notice: string)
    | Streamed(call: LogsCall, messages: seq<seq<byte>>, stop: Stop)

  /** StreamLogs after the upgrade: logs is the runtime's answer to the
      ContainerLogs request (None when it failed). */
  method StreamLogs(container: string, logs: Option<Stream>, failingWrite: Option<nat>) returns (r: LogsSession)
    ensures r.call == ContainerLogs(container, LogsOptions(true, true, true, "100"))
    ensures logs.None? <==> r.Refused?
    ensures r.Refused? ==> r.notice == LogsUnavailable
    ensures r.Streamed? ==>
      var d := Demux(logs.value.data, logs.value.tail);
      && (r.stop == WriteFailed <==> failingWrite.Some? && failingWrite.value < |d.payloads|)
      && (r.stop == WriteFailed ==> r.messages == d.payloads[..failingWrite.value])
      && (r.stop != WriteFailed ==> r.messages == d.payloads && r.stop == d.stop)
  {
    var call := ContainerLogs(container, FollowLogs);
    if logs.None? {
      return Refused(call, LogsUnavailable);
    }
    var sent, stop := PumpFrames(logs.value, failingWrite);
    return Streamed(call, sent, stop);
  }

  /** A frame as the runtime writes it */
  datatype Frame = Frame(streamType: byte, reserved: seq<byte>, payload: seq<byte>)

  predicate ValidFrame(f: Frame) {
    |f.reserved| == 3 && |f.payload| < Uint32Limit
  }

  predicate AllValid(fs: seq<Frame>) {
    forall i :: 0 <= i < |fs| ==> ValidFrame(fs[i])
  }

  function EncodeFrame(f: Frame): (b: seq<byte>)
    requires ValidFrame(f)
    ensures |b| == HeaderSize + |f.payload|
  {
    [f.streamType] + f.reserved + PutUint32BE(|f.payload|) + f.payload
  }

  function Encode(fs: seq<Frame>): seq<byte>
    requires AllValid(fs)
  {
    if fs == [] then [] else EncodeFrame(fs[0]) + Encode(fs[1..])
  }

  /** The payloads of the frames that carry any, in order */
  function Emitted(fs: seq<Frame>): seq<seq<byte>>
  {
    if fs == [] then []
    else if fs[0].payload == [] then Emitted(fs[1..])
    else [fs[0].payload] + Emitted(fs[1..])
  }

  /** The length field of an encoded frame is its payload length, whatever its first four bytes */
  lemma EncodedLength(f: Frame, rest: seq<byte>)
    requires ValidFrame(f)
    ensures DeclaredLength(EncodeFrame(f) + rest) == |f.payload|
  {
    var b := EncodeFrame(f) + rest;
    assert b[4..HeaderSize] == PutUint32BE(|f.payload|);
    DecodeEncode(|f.payload|);
  }

  /** Header bytes 0..3 (stream type and reserved bytes) never change what is decoded */
  lemma PrefixIgnored(s: seq<byte>, prefix: seq<byte>, tail: Tail)
    requires |s| >= HeaderSize
    requires |prefix| == 4
    ensures Demux(prefix + s[4..], tail) == Demux(s, tail)
  {
    var t := prefix + s[4..];
    assert t[4..HeaderSize] == s[4..HeaderSize];
    assert t[HeaderSize..] == s[HeaderSize..];
    DemuxStep(s, tail);
    DemuxStep(t, tail);
    var n := DeclaredLength(s);
    if 0 < n <= |s| - HeaderSize {
      assert t[HeaderSize..HeaderSize + n] == s[HeaderSize..HeaderSize + n];
      assert t[HeaderSize + n..] == s[HeaderSize + n..];
    }
  }

  /** A frame with declared length 0 emits nothing; decoding continues with the next header */
  lemma EmptyFrameSkipped(f: Frame, rest: seq<byte>, tail: Tail)
    requires ValidFrame(f)
    requires f.payload == []
    ensures Demux(EncodeFrame(f) + rest, tail) == Demux(rest, tail)
  {
    EncodedLength(f, rest);
    assert (EncodeFrame(f) + rest)[HeaderSize..] == rest;
  }

  /** One non-empty frame emits its payload, then decoding continues after it */
  lemma FrameEmitted(f: Frame, rest: seq<byte>, tail: Tail)
    requires ValidFrame(f)
    requires f.payload != []
    ensures Demux(EncodeFrame(f) + rest, tail)
         == Demuxed([f.payload] + Demux(rest, tail).payloads, Demux(rest, tail).stop)
  {
    var b := EncodeFrame(f) + rest;
    var n := |f.payload|;
    EncodedLength(f, rest);
    assert b[HeaderSize..HeaderSize + n] == f.payload;
    assert b[HeaderSize + n..] == rest;
  }

  /** Decoding a run of encoded frames followed by anything yields the run's
      non-empty payloads, in order, then whatever the remainder yields. */
  lemma {:induction false} DemuxEncoded(fs: seq<Frame>, rest: seq<byte>, tail: Tail)
    requires AllValid(fs)
    ensures Demux(Encode(fs) + rest, tail)
         == Demuxed(Emitted(fs) + Demux(rest, tail).payloads, Demux(rest, tail).stop)
    decreases |fs|
  {
    if fs == [] {
      assert Encode(fs) + rest == rest;
    } else {
      var after := Encode(fs[1..]) + rest;
      assert Encode(fs) + rest == EncodeFrame(fs[0]) + after;
      DemuxEncoded(fs[1..], rest, tail);
      DemuxFirstFrame(fs, after, tail, Demux(rest, tail));
    }
  }

  /** The inductive step of DemuxEncoded: the first frame is decoded, then the rest */
  lemma DemuxFirstFrame(fs: seq<Frame>, after: seq<byte>, tail: Tail, r: Demuxed)
    requires fs != [] && AllValid(fs)
    requires Demux(after, tail) == Demuxed(Emitted(fs[1..]) + r.payloads, r.stop)
    ensures Demux(EncodeFrame(fs[0]) + after, tail) == Demuxed(Emitted(fs) + r.payloads, r.stop)
  {
    var f := fs[0];
    if f.payload == [] {
      EmptyFrameSkipped(f, after, tail);
      assert Emitted(fs) == Emitted(fs[1..]);
    } else {
      NonEmptyFirst(fs, after, tail, r);
    }
  }

  lemma NonEmptyFirst(fs: seq<Frame>, after: seq<byte>, tail: Tail, r: Demuxed)
    requires fs != [] && AllValid(fs) && fs[0].payload != []
    requires Demux(after, tail) == Demuxed(Emitted(fs[1..]) + r.payloads, r.stop)
    ensures Demux(EncodeFrame(fs[0]) + after, tail) == Demuxed(Emitted(fs) + r.payloads, r.stop)
  {
    var f := fs[0];
    var later := Emitted(fs[1..]);
    FrameEmitted(f, after, tail);
    assert Emitted(fs) == [f.payload] + later;
    assert [f.payload] + (later + r.payloads) == ([f.payload] + later) + r.payloads;
  }

  /** Round trip: encoding frames and decoding the bytes gives back exactly
      their non-empty payloads, in order, and the stream ends as closed. */
  lemma RoundTrip(fs: seq<Frame>)
    requires AllValid(fs)
    ensures Demux(Encode(fs), Eof) == Demuxed(Emitted(fs), Closed)
  {
    DemuxEncoded(fs, [], Eof);
    assert Encode(fs) + [] == Encode(fs);
  }

  /** When no frame is empty, every frame becomes exactly one message */
  lemma {:induction false} EmittedAll(fs: seq<Frame>)
    requires forall i :: 0 <= i < |fs| ==> fs[i].payload != []
    ensures |Emitted(fs)| == |fs|
    ensures forall i :: 0 <= i < |fs| ==> Emitted(fs)[i] == fs[i].payload
    decreases |fs|
  {
    if fs != [] {
      EmittedAll(fs[1..]);
    }
  }

  /** A stream that stops part-way through a header (or exactly at a frame
      boundary) ends as closed, with all earlier payloads emitted and nothing
      from the partial header. */
  lemma TruncatedHeader(fs: seq<Frame>, partial: seq<byte>)
    requires AllValid(fs)
    requires |partial| < HeaderSize
    ensures Demux(Encode(fs) + partial, Eof) == Demuxed(Emitted(fs), Closed)
  {
    DemuxEncoded(fs, partial, Eof);
  }

  /** A stream that stops inside a payload ends with a payload error; the
      partial payload is not emitted, all earlier payloads are. */
  lemma TruncatedPayload(fs: seq<Frame>, f: Frame, k: nat, tail: Tail)
    requires AllValid(fs) && ValidFrame(f)
    requires HeaderSize <= k < |EncodeFrame(f)|
    ensures Demux(Encode(fs) + EncodeFrame(f)[..k], tail) == Demuxed(Emitted(fs), PayloadFailed)
  {
    var cut := EncodeFrame(f)[..k];
    DemuxEncoded(fs, cut, tail);
    assert cut[4..HeaderSize] == EncodeFrame(f)[4..HeaderSize];
    EncodedLength(f, []);
    assert EncodeFrame(f) + [] == EncodeFrame(f);
  }
}
