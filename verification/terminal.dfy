/** The interactive terminal (InteractiveTerminal): a chain of checks and
    remote calls that either ends with one error message to the client or
    with an attached shell, and the two relays that then copy bytes between
    the client and the shell. Each relay is modelled on its own, as a
    sequential function of what it reads; their concurrent race is not. */
module Terminal {
  import opened Wrappers
  import opened Bytes
  import opened Seqs

  // ---------------------------------------------------------------------
  // Session setup
  // ---------------------------------------------------------------------

  const NoContainer := "Error: Could not find container."
  const NotRunning := "Error: Container is not running."
  const CreateFailed := "Error: Failed to create terminal session."
  const AttachFailed := "Error: Failed to attach to terminal."

  /** The exec instance the handler asks the runtime for */
  datatype ExecConfig = ExecConfig(
    attachStdin: bool, attachStdout: bool, attachStderr: bool, cmd: seq<string>, tty: bool)

  /** An interactive /bin/sh on a pseudo-terminal with all three streams attached */
  const ShellExec := ExecConfig(true, true, true, ["/bin/sh"], true)

  /** The remote calls setup makes, in the order it makes them */
  datatype Call =
    | Inspect(container: string)
    | ExecCreate(container: string, config: ExecConfig)
    | ExecAttach(execId: string, tty: bool)

  /** The runtime's answers, decided by the environment; None stands for an error.
      running: the inspected container's State.Running; execId: the created exec's ID;
      attaches: whether attaching to it succeeds. */
  datatype Runtime = Runtime(running: Option<bool>, execId: Option<string>, attaches: bool)

  datatype Setup =
    | Refused(calls: seq<Call>, notice: string)
    | Attached(calls: seq<Call>, execId: string)

  predicate Creates(calls: seq<Call>) {
    exists i :: 0 <= i < |calls| && calls[i].ExecCreate?
  }

  predicate Attaches(calls: seq<Call>) {
    exists i :: 0 <= i < |calls| && calls[i].ExecAttach?
  }

  /** Steps 1 to 3 of InteractiveTerminal: inspect, check running, create the
      exec instance, attach to it. Every failure sends one message and makes
      no further call. */
  function OpenTerminal(container: string, rt: Runtime): (r: Setup)
    ensures 1 <= |r.calls| <= 3 && r.calls[0] == Inspect(container)
    ensures r.Attached? <==> rt.running == Some(true) && rt.execId.Some? && rt.attaches
    ensures r.Attached? ==> r.execId == rt.execId.value
    ensures Creates(r.calls) <==> rt.running == Some(true)
    ensures Attaches(r.calls) <==> rt.running == Some(true) && rt.execId.Some?
    ensures forall i :: 0 <= i < |r.calls| && r.calls[i].ExecCreate? ==> r.calls[i] == ExecCreate(container, ShellExec)
    ensures forall i :: 0 <= i < |r.calls| && r.calls[i].ExecAttach? ==> r.calls[i] == ExecAttach(rt.execId.value, true)
    ensures rt.running.None? ==> r.Refused? && r.notice == NoContainer
    ensures rt.running == Some(false) ==> r.Refused? && r.notice == NotRunning
    ensures rt.running == Some(true) && rt.execId.None? ==> r.Refused? && r.notice == CreateFailed
    ensures rt.running == Some(true) && rt.execId.Some? && !rt.attaches ==> r.Refused? && r.notice == AttachFailed
  {
    var inspect := [Inspect(container)];
    match rt.running
    case None => Refused(inspect, NoContainer)
    case Some(running) =>
      if !running then Refused(inspect, NotRunning)
      else
        var create := inspect + [ExecCreate(container, ShellExec)];
        assert create[1].ExecCreate?;
        match rt.execId
        case None => Refused(create, CreateFailed)
        case Some(id) =>
          var attach := create + [ExecAttach(id, true)];
          assert attach[1].ExecCreate? && attach[2].ExecAttach?;
          if rt.attaches then Attached(attach, id) else Refused(attach, AttachFailed)
  }

  // ---------------------------------------------------------------------
  // Inbound relay: client messages to the shell's stdin
  // ---------------------------------------------------------------------

  datatype MessageKind = TextMessage | BinaryMessage

  /** One ReadMessage on the client connection: a message, or an error (which
      includes the client closing the connection) */
  datatype ClientRead = Message(kind: MessageKind, body: seq<byte>) | ReadError

  datatype InboundEnd =
    | ClientGone      // ReadMessage failed
    | StdinFailed     // writing to the shell's stdin failed
    | AwaitingClient  // no further message yet: still blocked in ReadMessage

  /** Reference: the bodies of the text messages that arrive before the first read error */
  function TextBodies(received: seq<ClientRead>): seq<seq<byte>>
  {
    if received == [] || received[0].ReadError? then []
    else if received[0].kind == TextMessage then [received[0].body] + TextBodies(received[1..])
    else TextBodies(received[1..])
  }

  predicate HasReadError(received: seq<ClientRead>) {
    exists i :: 0 <= i < |received| && received[i].ReadError?
  }

  /** The first goroutine of InteractiveTerminal: read client messages, write
      each text message's body to stdin, ignore other messages, stop at the
      first read or write error. failingWrite is the index of the first
      stdin write that fails, if any. written is what stdin accepted, one
      element per Write call. */
  method RelayInbound(received: seq<ClientRead>, failingWrite: Option<nat>)
    returns (written: seq<seq<byte>>, end: InboundEnd)
    ensures var texts := TextBodies(received);
      if failingWrite.Some? && failingWrite.value < |texts|
      then written == texts[..failingWrite.value] && end == StdinFailed
      else written == texts && end != StdinFailed && (end == ClientGone <==> HasReadError(received))
  {
    written := [];
    var i := 0;
    while i < |received|
      invariant i <= |received|
      invariant forall j :: 0 <= j < i ==> received[j].Message?
      invariant TextBodies(received) == written + TextBodies(received[i..])
      invariant failingWrite.Some? ==> |written| <= failingWrite.value
    {
      assert received[i..][1..] == received[i + 1..];
      match received[i]
      case ReadError =>
        end := ClientGone;
        assert TextBodies(received) == written;
        return;
      case Message(kind, body) =>
        if kind == TextMessage {
          if failingWrite == Some(|written|) {
            end := StdinFailed;
            assert TextBodies(received)[..|written|] == written;
            return;
          }
          written := written + [body];
        }
      i := i + 1;
    }
    end := AwaitingClient;
    assert !HasReadError(received);
  }

  /** Messages before a read error are all that count; within them, the text bodies concatenate */
  lemma {:induction false} TextBodiesAppend(a: seq<ClientRead>, b: seq<ClientRead>)
    ensures HasReadError(a) ==> TextBodies(a + b) == TextBodies(a)
    ensures !HasReadError(a) ==> TextBodies(a + b) == TextBodies(a) + TextBodies(b)
    decreases |a|
  {
    if a == [] {
      assert a + b == b;
    } else {
      assert (a + b)[1..] == a[1..] + b;
      TextBodiesAppend(a[1..], b);
      if a[0].Message? {
        assert HasReadError(a) ==> HasReadError(a[1..]) by {
          if HasReadError(a) {
            var i :| 0 <= i < |a| && a[i].ReadError?;
            assert a[1..][i - 1].ReadError?;
          }
        }
        assert HasReadError(a[1..]) ==> HasReadError(a) by {
          if HasReadError(a[1..]) {
            var i :| 0 <= i < |a[1..]| && a[1..][i].ReadError?;
            assert a[i + 1].ReadError?;
          }
        }
      } else {
        assert HasReadError(a);
      }
    }
  }

  /** A binary message anywhere changes nothing that reaches stdin */
  lemma BinaryIgnored(a: seq<ClientRead>, body: seq<byte>, b: seq<ClientRead>)
    ensures TextBodies(a + [Message(BinaryMessage, body)] + b) == TextBodies(a + b)
  {
    var m := [Message(BinaryMessage, body)];
    TextBodiesAppend(a, m + b);
    TextBodiesAppend(a, b);
    assert (m + b)[1..] == b;
    assert a + m + b == a + (m + b);
  }

  /** Nothing after the first read error reaches stdin */
  lemma StopsAtReadError(a: seq<ClientRead>, b: seq<ClientRead>)
    ensures TextBodies(a + [ReadError] + b) == TextBodies(a)
  {
    TextBodiesAppend(a, [ReadError] + b);
    if !HasReadError(a) {
      assert TextBodies([ReadError] + b) == [];
    }
    assert a + [ReadError] + b == a + ([ReadError] + b);
  }

  // ---------------------------------------------------------------------
  // Outbound relay: shell output to the client
  // ---------------------------------------------------------------------

  /** Size of the read buffer; no message is longer */
  const BufferSize: nat := 4096

  /** What follows the shell's output bursts. An io.Reader may return bytes
      together with its error; the handler tests the error first, so those
      bytes (dropped) are never sent. */
  datatype ShellEnd =
    | ShellEof(dropped: seq<byte>)    // io.EOF: the shell's output closed; ends the relay without logging
    | ShellError(dropped: seq<byte>)  // another read error; logged, ends the relay
    | ShellOpen                       // no further output yet: still blocked in Read

  datatype OutboundEnd = Exited | ReadFailed | ClientWriteFailed | AwaitingShell

  /** How one read of at most BufferSize bytes splits a burst of shell output */
  function Split(burst: seq<byte>): (r: seq<seq<byte>>)
    ensures Flatten(r) == burst
    ensures forall i :: 0 <= i < |r| ==> 0 < |r[i]| <= BufferSize
    decreases |burst|
  {
    if burst == [] then []
    else if |burst| <= BufferSize then [burst]
    else [burst[..BufferSize]] + Split(burst[BufferSize..])
  }

  /** Reference: the messages the shell's output becomes, burst by burst */
  function Chunks(bursts: seq<seq<byte>>): (r: seq<seq<byte>>)
    ensures Flatten(r) == Flatten(bursts)
    ensures forall i :: 0 <= i < |r| ==> 0 < |r[i]| <= BufferSize
    decreases |bursts|
  {
    if bursts == [] then []
    else
      var r := Split(bursts[0]) + Chunks(bursts[1..]);
      FlattenAppend(Split(bursts[0]), Chunks(bursts[1..]));
      r
  }

  /** One Read into the buffer: at most BufferSize bytes of what is pending */
  function Take(pending: seq<byte>): (r: (seq<byte>, seq<byte>))
    ensures r.0 + r.1 == pending
    ensures |r.0| == if |pending| < BufferSize then |pending| else BufferSize
  {
    if |pending| <= BufferSize then (pending, []) else (pending[..BufferSize], pending[BufferSize..])
  }

  function OutboundEndOf(e: ShellEnd): OutboundEnd {
    match e
    case ShellEof(_) => Exited
    case ShellError(_) => ReadFailed
    case ShellOpen => AwaitingShell
  }

  /** One Read on the shell's output: bytes from what is pending, or from
      the next burst when nothing is pending; Ended when neither remains */
  datatype ShellRead = Data(bytes: seq<byte>, pending: seq<byte>, next: nat) | Ended

  function NextRead(bursts: seq<seq<byte>>, i: nat, pending: seq<byte>): ShellRead
    requires i <= |bursts|
  {
    if pending != [] then Data(Take(pending).0, Take(pending).1, i)
    else if i < |bursts| then Data(Take(bursts[i]).0, Take(bursts[i]).1, i + 1)
    else Ended
  }

  /** One Read agrees with the reference chunking of the remaining output, and makes progress */
  lemma NextReadAgrees(bursts: seq<seq<byte>>, i: nat, pending: seq<byte>)
    requires i <= |bursts|
    ensures var r := NextRead(bursts, i, pending);
      r.Ended? ==> Split(pending) + Chunks(bursts[i..]) == []
    ensures var r := NextRead(bursts, i, pending);
      r.Data? ==>
        && i <= r.next <= |bursts|
        && (r.next == i ==> |r.pending| < |pending|)
        && Split(pending) + Chunks(bursts[i..])
           == (if r.bytes == [] then [] else [r.bytes]) + (Split(r.pending) + Chunks(bursts[r.next..]))
  {
    if pending != [] {
      PendingRead(bursts[i..], pending);
    } else if i < |bursts| {
      assert bursts[i..][1..] == bursts[i + 1..];
      BurstRead(bursts[i..]);
    } else {
      assert bursts[i..] == [];
    }
  }

  lemma PendingRead(later: seq<seq<byte>>, pending: seq<byte>)
    requires pending != []
    ensures var (bytes, left) := Take(pending);
      bytes != [] && Split(pending) + Chunks(later) == [bytes] + (Split(left) + Chunks(later))
  {
    SplitTake(pending);
    var (bytes, left) := Take(pending);
    Associative([bytes], Split(left), Chunks(later));
  }

  lemma BurstRead(later: seq<seq<byte>>)
    requires later != []
    ensures var (bytes, left) := Take(later[0]);
      Chunks(later) == (if bytes == [] then [] else [bytes]) + (Split(left) + Chunks(later[1..]))
  {
    var burst := later[0];
    assert Chunks(later) == Split(burst) + Chunks(later[1..]);
    var (bytes, left) := Take(burst);
    if burst != [] {
      SplitTake(burst);
      Associative([bytes], Split(left), Chunks(later[1..]));
    }
  }

  /** A Read from non-empty pending output yields the first piece of its split */
  lemma SplitTake(pending: seq<byte>)
    requires pending != []
    ensures Take(pending).0 != []
    ensures Split(pending) == [Take(pending).0] + Split(Take(pending).1)
  {
  }

  /** Sending the head of what remains of the reference chunking, or skipping
      an empty read, keeps what was sent a prefix of the chunking */
  lemma SendSplits(chunks: seq<seq<byte>>, sent: seq<seq<byte>>, data: seq<byte>, later: seq<seq<byte>>)
    requires chunks == sent + ((if data == [] then [] else [data]) + later)
    ensures data != [] ==> chunks == (sent + [data]) + later && chunks[..|sent|] == sent
    ensures data == [] ==> chunks == sent + later
  {
    if data != [] {
      Associative(sent, [data], later);
      assert chunks[..|sent|] == sent;
    } else {
      assert [] + later == later;
    }
  }

  /** The second goroutine of InteractiveTerminal: Read up to 4096 bytes of
      shell output, send every non-empty read as one text message, stop at
      the first read error or failed send. bursts are the pieces of output as
      the connection delivers them; failingWrite is the index of the first
      send that fails, if any. */
  method RelayOutbound(bursts: seq<seq<byte>>, shellEnd: ShellEnd, failingWrite: Option<nat>)
    returns (sent: seq<seq<byte>>, end: OutboundEnd)
    ensures var chunks := Chunks(bursts);
      if failingWrite.Some? && failingWrite.value < |chunks|
      then sent == chunks[..failingWrite.value] && end == ClientWriteFailed
      else sent == chunks && end == OutboundEndOf(shellEnd)
  {
    ghost var chunks := Chunks(bursts);
    sent := [];
    var i := 0;
    var pending: seq<byte> := [];
    while true
      invariant i <= |bursts|
      invariant chunks == sent + (Split(pending) + Chunks(bursts[i..]))
      invariant failingWrite.Some? ==> |sent| <= failingWrite.value
      decreases |bursts| - i, |pending|
    {
      NextReadAgrees(bursts, i, pending);
      var read := NextRead(bursts, i, pending);
      if read.Ended? {
        end := OutboundEndOf(shellEnd);
        return;
      }
      var data := read.bytes;
      i, pending := read.next, read.pending;
      ghost var later := Split(pending) + Chunks(bursts[i..]);
      SendSplits(chunks, sent, data, later);
      if |data| > 0 {
        if failingWrite == Some(|sent|) {
          end := ClientWriteFailed;
          return;
        }
        sent := sent + [data];
      }
    }
  }
}
