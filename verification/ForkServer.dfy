/**
  The code of src/fork_server.c: the receive loop that feeds a connection, and the theorem about
  whole runs. However recv cuts up the client's stream and however send cuts up the responses,
  what goes on the wire, the return value and the octets consumed are those of Runs.Serve.
*/
module ForkServer {
  import opened Wrappers
  import opened Text
  import opened Transport
  import opened RequestSyntax
  import opened FileSystem
  import opened Responses
  import opened ResponseSender
  import opened ConnectionBuffer
  import opened Runs
  import opened RunTheorems
  import opened HttpServer

  // ---------------------------------------------------------------- the connection

  const RECEIVE_SIZE := 4096

  /** What a connection ends with: the octets on the wire, the return value, the octets answered. */
  function HandledWire(stream: string, config: Config, root: string -> Entry): string {
    if ValidConfig(config) then Wire(Serve(stream, config, root)) else ""
  }

  function HandledResult(stream: string, config: Config, root: string -> Entry): int {
    if ValidConfig(config) then ResultCode(Serve(stream, config, root).exit)
    else if config.bufferSize == 0 || stream != "" then -1
    else 0
  }

  function HandledLength(stream: string, config: Config, root: string -> Entry): nat {
    if ValidConfig(config) then Serve(stream, config, root).consumed else 0
  }

  /**
    When the return value is -1: with a valid configuration exactly when no response closed the
    connection and the first `bufferSize` octets not yet answered hold no complete header section;
    with an invalid one whenever there is no buffer or anything to answer.
  */
  lemma ResultExact(stream: string, config: Config, root: string -> Entry)
    ensures HandledResult(stream, config, root) in {0, -1}
    ensures !ValidConfig(config) ==>
              (HandledResult(stream, config, root) == -1 <==> config.bufferSize == 0 || stream != "")
    ensures ValidConfig(config) ==>
              var run := Serve(stream, config, root);
              var rest := stream[run.consumed..];
              HandledResult(stream, config, root) == -1
              <==> run.exit != Closed && |rest| >= config.bufferSize && FindEnd(rest[..config.bufferSize]).None?
  {
    hide Serve;
    FullExactly(stream, config, root);
  }

  /** What the whole run puts on the wire is there, and what it consumes is consumed. */
  ghost predicate Complete(
    stream: string, config: Config, root: string -> Entry, taken: nat, before: string, wire: string)
  {
    wire == before + HandledWire(stream, config, root) && taken == HandledLength(stream, config, root)
  }

  /** The same, with the run's return value. */
  ghost predicate Finished(
    stream: string, config: Config, root: string -> Entry, taken: nat, before: string, wire: string, result: int)
  {
    Complete(stream, config, root, taken, before, wire) && result == HandledResult(stream, config, root)
  }

  /** The run may have been cut short, but nothing false was said. */
  ghost predicate Bounded(stream: string, config: Config, root: string -> Entry, before: string, wire: string) {
    before <= wire <= before + HandledWire(stream, config, root)
  }

  /**
    Between two turns of the receive loop, of what has been received: `done` answers all that is
    complete, and `held` is still in the buffer. An invalid configuration gets nowhere.
  */
  ghost predicate Accounted(
    received: string, config: Config, root: string -> Entry, done: seq<Reply>, taken: nat, held: string,
    closing: bool, before: string, wire: string)
  {
    if ValidConfig(config) then
      && Answered(received, config, root, done, taken, held, closing, before, wire)
      && (closing || FindEnd(held).None?)
    else
      wire == before && held == "" && received == "" && !closing && taken == 0
  }

  // ---------------------------------------------------------------- what is still to come

  /** What has been received is answered the same whatever comes later. */
  lemma WireGrows(received: string, later: string, config: Config, root: string -> Entry)
    ensures Wire(Serve(received, config, root)) <= Wire(Serve(received + later, config, root))
  {
    hide Serve;
    var run := Serve(received, config, root);
    LaterInput(received, later, config, root);
    if run.exit == EndOfInput {
      FlattenConcat(run.replies, Serve(received[run.consumed..] + later, config, root).replies);
    }
  }

  lemma BoundedLater(
    received: string, later: string, config: Config, root: string -> Entry, before: string, wire: string)
    requires Bounded(received, config, root, before, wire)
    ensures Bounded(received + later, config, root, before, wire)
  {
    hide Serve, Wire;
    WireGrows(received, later, config, root);
    ConcatPrefix(before, HandledWire(received, config, root), HandledWire(received + later, config, root));
  }

  /** A run that has ended by itself is not changed by what comes later. */
  lemma FinishedLater(
    received: string, later: string, config: Config, root: string -> Entry, taken: nat, before: string, wire: string,
    result: int)
    requires Finished(received, config, root, taken, before, wire, result)
    requires ValidConfig(config) && Serve(received, config, root).exit != EndOfInput
    ensures Finished(received + later, config, root, taken, before, wire, result)
  {
    hide Serve, Wire;
    LaterInput(received, later, config, root);
  }

  // ---------------------------------------------------------------- the account

  lemma AccountedIsBounded(
    received: string, config: Config, root: string -> Entry, done: seq<Reply>, taken: nat, held: string,
    closing: bool, before: string, wire: string)
    requires Accounted(received, config, root, done, taken, held, closing, before, wire)
    ensures Bounded(received, config, root, before, wire)
  {
    hide Serve, Wire, Flatten;
    if ValidConfig(config) {
      AnsweredWire(received, config, root, done, taken, held, closing, before, wire);
    }
  }

  lemma ClosedIsFinished(
    received: string, later: string, config: Config, root: string -> Entry, done: seq<Reply>, taken: nat, held: string,
    before: string, wire: string)
    requires Accounted(received, config, root, done, taken, held, true, before, wire)
    ensures Finished(received, config, root, taken, before, wire, 0)
    ensures Finished(received + later, config, root, taken, before, wire, 0)
  {
    hide Serve, Wire, Flatten;
    AnsweredWire(received, config, root, done, taken, held, true, before, wire);
    FinishedLater(received, later, config, root, taken, before, wire, 0);
  }

  lemma FullIsFinished(
    received: string, later: string, config: Config, root: string -> Entry, done: seq<Reply>, taken: nat, held: string,
    before: string, wire: string)
    requires Accounted(received, config, root, done, taken, held, false, before, wire)
    requires |held| == config.bufferSize > 0
    ensures var last := wire + Bytes(ErrorReply(HeadersTooLarge431, None));
            && Finished(received, config, root, taken, before, last, -1)
            && Finished(received + later, config, root, taken, before, last, -1)
  {
    hide Serve, Bytes, ErrorReply;
    assert held + "" == held;
    ServeFull(held, "", config, root);
    AnsweredWire(received, config, root, done, taken, held, false, before, wire);
    var reply := ErrorReply(HeadersTooLarge431, None);
    FlattenSnoc([], reply);
    assert [] + [reply] == [reply] && Flatten([]) == "" && "" + Bytes(reply) == Bytes(reply);
    FinishedLater(received, later, config, root, taken, before, wire + Bytes(reply), -1);
  }

  /** With room in the buffer nothing that was received is unanswered, and it may be the whole stream. */
  lemma StillIsFinished(
    received: string, config: Config, root: string -> Entry, done: seq<Reply>, taken: nat, held: string,
    before: string, wire: string)
    requires Accounted(received, config, root, done, taken, held, false, before, wire)
    requires |held| < config.bufferSize
    ensures Finished(received, config, root, taken, before, wire, 0)
  {
    hide Serve, Bytes;
    assert wire + "" == wire;
    if ValidConfig(config) {
      ServeEnd(held, config, root);
      AnsweredWire(received, config, root, done, taken, held, false, before, wire);
    }
  }

  /** What arrives is added to what is held. */
  lemma AnsweredLater(
    received: string, data: string, config: Config, root: string -> Entry, done: seq<Reply>, taken: nat, held: string,
    before: string, wire: string)
    requires Answered(received, config, root, done, taken, held, false, before, wire)
    requires FindEnd(held).None? && |held| < config.bufferSize
    ensures Answered(received + data, config, root, done, taken, held + data, false, before, wire)
  {
    hide Serve, Flatten;
    ServeEnd(held, config, root);
    assert done + [] == done;
    LaterInput(received, data, config, root);
    assert (received + data)[taken..] == held + data;
  }

  /** The account goes on over a successful pass over the buffer. */
  lemma AccountGoesOn(
    received: string, config: Config, root: string -> Entry, done: seq<Reply>, start: nat, middle: string,
    more: seq<Reply>, taken: nat, held: string, closing: bool, before: string, between: string, wire: string)
    requires ValidConfig(config)
    requires Answered(received, config, root, done, start, middle, false, before, between)
    requires Answered(middle, config, root, more, taken, held, closing, between, wire)
    requires closing || FindEnd(held).None?
    ensures Accounted(received, config, root, done + more, start + taken, held, closing, before, wire)
  {
    hide Serve, Wire, Answered;
    AnsweredThen(received, config, root, done, start, middle, more, taken, held, closing, before, between, wire);
  }

  /** Serving stopped half way. */
  lemma AccountStops(
    received: string, config: Config, root: string -> Entry, done: seq<Reply>, start: nat, middle: string,
    before: string, between: string, wire: string)
    requires ValidConfig(config)
    requires Answered(received, config, root, done, start, middle, false, before, between)
    requires between <= wire <= between + Wire(Serve(middle, config, root))
    ensures Bounded(received, config, root, before, wire)
  {
    hide Serve, Wire, Answered;
    AnsweredWire(received, config, root, done, start, middle, false, before, between);
  }

  // ---------------------------------------------------------------- the receive loop

  /** The state between two turns of the receive loop. */
  ghost predicate LoopState(
    connection: Connection, socket: Socket, kernel: Kernel, config: Config, stream: string, before: string,
    done: seq<Reply>)
    reads connection, connection.buffer, connection.response, socket, kernel
  {
    && Ready(connection, kernel) && connection.bufferCapacity == config.bufferSize > 0
    && connection.received + socket.incoming == stream
    && Accounted(connection.received, config, kernel.root, done, |connection.consumed|, connection.Contents(),
                 connection.closeConnection, before, socket.wire)
  }

  /** What recv delivered is fed to the buffer, where it always fits, and served. */
  method Arrive(
    connection: Connection, socket: Socket, kernel: Kernel, config: Config, data: string,
    ghost before: string, ghost done: seq<Reply>)
    returns (ok: bool, ghost answered: seq<Reply>)
    requires Ready(connection, kernel) && connection.bufferCapacity == config.bufferSize > 0
    requires !connection.closeConnection
    requires data != "" && |data| <= config.bufferSize - |connection.Contents()|
    requires Accounted(connection.received, config, kernel.root, done, |connection.consumed|, connection.Contents(),
                       false, before, socket.wire)
    modifies connection, connection.buffer, connection.response, connection.response.headers
    modifies socket`wire, socket`sendPlan, kernel`open
    ensures Ready(connection, kernel) && connection.received == old(connection.received) + data
    ensures Bounded(connection.received, config, kernel.root, before, socket.wire)
    ensures ok ==>
              && kernel.open == old(kernel.open)
              && Accounted(connection.received, config, kernel.root, answered, |connection.consumed|,
                           connection.Contents(), connection.closeConnection, before, socket.wire)
    ensures !ok && old(socket.CleanSends()) ==>
              && !ValidConfig(config) && kernel.open == old(kernel.open)
              && socket.wire == before && connection.consumed == []
    ensures old(socket.CleanSends()) ==> socket.CleanSends()
  {
    hide Serve, Wire, Answered, Bytes, Accounted;
    ghost var received, held, between := connection.received, connection.Contents(), socket.wire;
    ghost var start := |connection.consumed|;
    AccountOpens(received, data, config, kernel.root, done, start, held, before, between);
    var fed := connection.Feed(data);
    assert fed == 0;
    assert connection.Contents() + "" == held + data;
    var result, more, taken := ProcessConnection(connection, socket, kernel, config, "");
    ok, answered := result == 0, done + more;
    assert connection.Contents() + "" == connection.Contents();
    if ok {
      AccountGoesOn(received + data, config, kernel.root, done, start, held + data, more, taken,
                    connection.Contents(), connection.closeConnection, before, between, socket.wire);
      AccountedIsBounded(received + data, config, kernel.root, answered, start + taken, connection.Contents(),
                         connection.closeConnection, before, socket.wire);
    } else if ValidConfig(config) {
      AccountStops(received + data, config, kernel.root, done, start, held + data, before, between, socket.wire);
    }
  }

  lemma AccountOpens(
    received: string, data: string, config: Config, root: string -> Entry, done: seq<Reply>, taken: nat, held: string,
    before: string, wire: string)
    requires Accounted(received, config, root, done, taken, held, false, before, wire)
    requires |held| < config.bufferSize
    ensures if ValidConfig(config) then
              Answered(received + data, config, root, done, taken, held + data, false, before, wire)
            else wire == before && received == held == "" && taken == 0
  {
    hide Answered, Serve;
    if ValidConfig(config) {
      AnsweredLater(received, data, config, root, done, taken, held, before, wire);
    }
  }

  /**
    One turn of the receive loop of fork_server_handle_connection. The 431 for a failed feed is
    never sent: recv is asked for no more than the buffer has room for.
  */
  method Turn(
    connection: Connection, socket: Socket, kernel: Kernel, config: Config,
    ghost stream: string, ghost before: string, ghost done: seq<Reply>)
    returns (over: bool, result: int, ghost answered: seq<Reply>)
    requires LoopState(connection, socket, kernel, config, stream, before, done) && !connection.closeConnection
    modifies connection, connection.buffer, connection.response, connection.response.headers, socket, kernel`open
    ensures Ready(connection, kernel) && (result == 0 || result == -1)
    ensures connection.received + socket.incoming == stream
    ensures Bounded(connection.received, config, kernel.root, before, socket.wire)
    ensures !over ==>
              && LoopState(connection, socket, kernel, config, stream, before, answered)
              && kernel.open == old(kernel.open)
              && |socket.incoming| + |socket.recvPlan| < |old(socket.incoming)| + |old(socket.recvPlan)|
    ensures over && (old(socket.CleanSends()) || result == 0) ==>
              && Complete(connection.received, config, kernel.root, |connection.consumed|, before, socket.wire)
              && kernel.open == old(kernel.open)
    ensures over && ((old(socket.CleanSends()) && old(socket.CleanRecvs())) || result == 0) ==>
              Finished(stream, config, kernel.root, |connection.consumed|, before, socket.wire, result)
    ensures old(socket.CleanSends()) ==> socket.CleanSends()
    ensures old(socket.CleanRecvs()) ==> socket.CleanRecvs()
  {
    hide Serve, Wire, Answered, Bytes, Accounted, Bounded, Complete;
    ghost var held, taken := connection.Contents(), |connection.consumed|;
    AccountedIsBounded(connection.received, config, kernel.root, done, taken, held, false, before, socket.wire);
    var space := connection.BufferSpace();
    var capacity := Min(space, RECEIVE_SIZE);
    over, result, answered := true, -1, done;
    if capacity == 0 {
      FullIsFinished(connection.received, socket.incoming, config, kernel.root, done, taken, held, before, socket.wire);
      RefuseFull(socket, config, kernel.root, connection.received, stream, before, taken);
      return;
    }
    StillIsFinished(connection.received, config, kernel.root, done, taken, held, before, socket.wire);
    var received := socket.Recv(capacity);
    match received
    case RecvEintr => over := false;
    case RecvEagain =>
    case RecvBroken =>
    case Data(data) =>
      if data == "" {
        assert connection.received == stream;
        result := 0;
        return;
      }
      Concat3(connection.received, data, socket.incoming);
      var ok: bool;
      ok, answered := Arrive(connection, socket, kernel, config, data, before, done);
      over := !ok;
      if !ValidConfig(config) {
        NothingFromInvalid(connection.received, socket.incoming, config, kernel.root, before);
      }
  }

  lemma NothingFromInvalid(received: string, later: string, config: Config, root: string -> Entry, before: string)
    requires !ValidConfig(config) && received != ""
    ensures Complete(received, config, root, 0, before, before)
    ensures Finished(received + later, config, root, 0, before, before, -1)
  {
    assert before + "" == before;
  }

  /** The 431 for a full buffer. */
  method RefuseFull(
    socket: Socket, config: Config, ghost root: string -> Entry,
    ghost received: string, ghost stream: string, ghost before: string, ghost taken: nat)
    requires Bounded(received, config, root, before, socket.wire)
    requires var last := socket.wire + Bytes(ErrorReply(HeadersTooLarge431, None));
             && Finished(received, config, root, taken, before, last, -1)
             && Finished(stream, config, root, taken, before, last, -1)
    modifies socket`wire, socket`sendPlan
    ensures Bounded(received, config, root, before, socket.wire)
    ensures old(socket.CleanSends()) ==>
              && socket.CleanSends()
              && Finished(received, config, root, taken, before, socket.wire, -1)
              && Finished(stream, config, root, taken, before, socket.wire, -1)
  {
    hide HandledWire, HandledResult, HandledLength, Head, ErrorPage, Bytes;
    EmittersAgree(HeadersTooLarge431);
    var _ := SendError(socket, HeadersTooLarge431, false);
  }

  /** The octets of a stream that have been received, when some are still to come. */
  function Received(stream: string, incoming: string): string
    requires |incoming| <= |stream|
  {
    stream[..|stream| - |incoming|]
  }

  /**
    fork_server_handle_connection. For every schedule of receives and sends:
    - the octets put on the wire are the beginning of what Serve says of the octets received,
      and so of the whole stream;
    - when no send fails, and whenever 0 is returned, they are all of what Serve says of the
      octets received, as many are consumed as Serve says, and every descriptor opened has been
      closed: a recv that times out or fails leaves no complete request unanswered;
    - when no recv times out or fails either, and whenever 0 is returned, they are what Serve
      says of the whole stream, and so is the return value.
  */
  method HandleConnection(socket: Socket, kernel: Kernel, config: Config) returns (result: int, ghost consumed: string)
    requires kernel.Valid()
    modifies socket, kernel`open
    ensures kernel.Valid() && (result == 0 || result == -1)
    ensures |socket.incoming| <= |old(socket.incoming)|
    ensures var received := Received(old(socket.incoming), socket.incoming);
            && received + socket.incoming == old(socket.incoming)
            && Bounded(received, config, kernel.root, old(socket.wire), socket.wire)
            && (old(socket.CleanSends()) || result == 0 ==>
                  && Complete(received, config, kernel.root, |consumed|, old(socket.wire), socket.wire)
                  && consumed <= received
                  && kernel.open == old(kernel.open))
    ensures Bounded(old(socket.incoming), config, kernel.root, old(socket.wire), socket.wire)
    ensures (old(socket.CleanSends()) && old(socket.CleanRecvs())) || result == 0 ==>
              Finished(old(socket.incoming), config, kernel.root, |consumed|, old(socket.wire), socket.wire, result)
  {
    hide Serve, Wire, Answered, Accounted, Complete, Bounded;
    ghost var stream, before, done := socket.incoming, socket.wire, [];
    consumed := "";
    if config.bufferSize == 0 {
      NothingHandled(stream, config, kernel.root, before);
      return -1, consumed;
    }
    var connection := new Connection(config.bufferSize);
    NothingAnswered(config, kernel.root, before);
    assert connection.received + stream == stream;
    result := 0;
    while !connection.closeConnection
      invariant LoopState(connection, socket, kernel, config, stream, before, done)
      invariant fresh(connection) && fresh(connection.buffer)
      invariant fresh(connection.response) && fresh(connection.response.headers)
      invariant kernel.open == old(kernel.open)
      invariant old(socket.CleanSends()) ==> socket.CleanSends()
      invariant old(socket.CleanRecvs()) ==> socket.CleanRecvs()
      decreases |socket.incoming| + |socket.recvPlan|
    {
      var over: bool;
      over, result, done := Turn(connection, socket, kernel, config, stream, before, done);
      if over {
        consumed := connection.consumed;
        BoundedLater(connection.received, socket.incoming, config, kernel.root, before, socket.wire);
        return;
      }
    }
    result, consumed := 0, connection.consumed;
    AccountedIsBounded(connection.received, config, kernel.root, done, |consumed|, connection.Contents(), true,
                       before, socket.wire);
    ClosedIsFinished(connection.received, socket.incoming, config, kernel.root, done, |consumed|,
                     connection.Contents(), before, socket.wire);
    BoundedLater(connection.received, socket.incoming, config, kernel.root, before, socket.wire);
  }

  lemma NothingHandled(stream: string, config: Config, root: string -> Entry, wire: string)
    requires config.bufferSize == 0
    ensures Finished(stream, config, root, 0, wire, wire, -1) && Bounded(stream, config, root, wire, wire)
    ensures Complete("", config, root, 0, wire, wire) && Bounded("", config, root, wire, wire)
  {
    assert wire + "" == wire;
  }

  lemma NothingAnswered(config: Config, root: string -> Entry, wire: string)
    ensures Accounted("", config, root, [], 0, "", false, wire, wire)
  {
    hide Serve;
    AnsweredNothing("", config, root, wire);
    assert FindEnd("").None?;
  }
}
