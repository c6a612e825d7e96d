/**
  The whole life of a connection as one function of the octets the client sends: no chunk, no
  buffer and no partial send appears in it.
*/
module Runs {
  import opened Wrappers
  import opened Text
  import opened Transport
  import opened RequestSyntax
  import opened FileSystem
  import opened Responses
  import opened Http

  datatype Exit = Closed | EndOfInput | BufferFull

  /** The responses sent, how many octets of the stream they answered, and how it ended. */
  datatype Run = Run(replies: seq<Reply>, consumed: nat, exit: Exit)

  function Serve(stream: string, config: Config, root: string -> Entry): (run: Run)
    ensures run.consumed <= |stream|
    decreases |stream|
  {
    match FindEnd(stream[..Min(config.bufferSize, |stream|)])
    case Some(n) =>
      var reply := Respond(stream[..n], config, root, false);
      if reply.close then Run([reply], n, Closed)
      else Prepend([reply], n, Serve(stream[n..], config, root))
    case None =>
      if |stream| >= config.bufferSize then Run([ErrorReply(HeadersTooLarge431, None)], 0, BufferFull)
      else Run([], 0, EndOfInput)
  }

  function Prepend(replies: seq<Reply>, consumed: nat, run: Run): Run {
    Run(replies + run.replies, consumed + run.consumed, run.exit)
  }

  function Flatten(replies: seq<Reply>): string {
    if replies == [] then "" else Bytes(replies[0]) + Flatten(replies[1..])
  }

  function Wire(run: Run): string {
    Flatten(run.replies)
  }

  /** fork_server_handle_connection's return value. */
  function ResultCode(exit: Exit): int {
    if exit == BufferFull then -1 else 0
  }

  lemma PrependNothing(run: Run)
    ensures Prepend([], 0, run) == run
  {
    assert [] + run.replies == run.replies;
  }

  lemma PrependTwice(a: seq<Reply>, k: nat, b: seq<Reply>, m: nat, run: Run)
    ensures Prepend(a, k, Prepend(b, m, run)) == Prepend(a + b, k + m, run)
  {
    assert a + (b + run.replies) == a + b + run.replies;
  }

  lemma {:induction false} FlattenConcat(a: seq<Reply>, b: seq<Reply>)
    ensures Flatten(a + b) == Flatten(a) + Flatten(b)
  {
    if a == [] {
      assert a + b == b;
    } else {
      assert (a + b)[1..] == a[1..] + b;
      FlattenConcat(a[1..], b);
    }
  }

  lemma FlattenSnoc(a: seq<Reply>, reply: Reply)
    ensures Flatten(a + [reply]) == Flatten(a) + Bytes(reply)
  {
    FlattenConcat(a, [reply]);
    assert Flatten([reply]) == Bytes(reply) + Flatten([]);
  }

  // ---------------------------------------------------------------- one step

  /** A complete request in the buffer is answered the same whatever follows it. */
  lemma ServeRequest(held: string, later: string, config: Config, root: string -> Entry)
    requires |held| <= config.bufferSize && FindEnd(held).Some?
    ensures var n := FindEnd(held).value;
            var reply := Respond(held[..n], config, root, false);
            Serve(held + later, config, root)
            == if reply.close then Run([reply], n, Closed)
               else Prepend([reply], n, Serve(held[n..] + later, config, root))
  {
    hide Respond;
    var stream := held + later;
    var n := FindEnd(held).value;
    var m := Min(config.bufferSize, |stream|);
    FindEndStable(held, stream[|held|..m]);
    assert held + stream[|held|..m] == stream[..m];
    assert stream[..n] == held[..n] && stream[n..] == held[n..] + later;
  }

  /** A buffer that is full without a complete request ends the run, whatever follows. */
  lemma ServeFull(held: string, later: string, config: Config, root: string -> Entry)
    requires |held| == config.bufferSize && FindEnd(held).None?
    ensures Serve(held + later, config, root) == Run([ErrorReply(HeadersTooLarge431, None)], 0, BufferFull)
  {
    assert (held + later)[..config.bufferSize] == held;
  }

  /** The client's end of input ends the run. */
  lemma ServeEnd(held: string, config: Config, root: string -> Entry)
    requires |held| < config.bufferSize && FindEnd(held).None?
    ensures Serve(held, config, root) == Run([], 0, EndOfInput)
  {
    assert held[..|held|] == held;
  }

  // ---------------------------------------------------------------- many steps

  /**
    Of a stream, `done` has answered the first `k` octets, and `rest` is what is left; when the
    connection is closing the run is over, otherwise the rest is served as a stream of its own.
  */
  ghost predicate Progress(
    stream: string, config: Config, root: string -> Entry, done: seq<Reply>, k: nat, rest: string, closing: bool)
  {
    && k <= |stream| && rest == stream[k..]
    && Serve(stream, config, root) ==
       if closing then Run(done, k, Closed) else Prepend(done, k, Serve(rest, config, root))
  }

  lemma ProgressStart(stream: string, config: Config, root: string -> Entry)
    ensures Progress(stream, config, root, [], 0, stream, false)
  {
    hide Serve;
    PrependNothing(Serve(stream, config, root));
  }

  lemma ProgressThen(
    stream: string, config: Config, root: string -> Entry, done: seq<Reply>, k: nat, middle: string,
    more: seq<Reply>, m: nat, rest: string, closing: bool)
    requires Progress(stream, config, root, done, k, middle, false)
    requires Progress(middle, config, root, more, m, rest, closing)
    ensures Progress(stream, config, root, done + more, k + m, rest, closing)
  {
    hide Serve;
    PrependTwice(done, k, more, m, Serve(rest, config, root));
    assert stream[k..][m..] == stream[k + m..];
  }

  lemma ProgressRequest(
    stream: string, config: Config, root: string -> Entry, done: seq<Reply>, k: nat, held: string, later: string)
    requires Progress(stream, config, root, done, k, held + later, false)
    requires |held| <= config.bufferSize && FindEnd(held).Some?
    ensures var n := FindEnd(held).value;
            var reply := Respond(held[..n], config, root, false);
            && Progress(stream, config, root, done + [reply], k + n, held[n..] + later, reply.close)
            && Flatten(done) + Bytes(reply) <= Wire(Serve(stream, config, root))
  {
    hide Serve, Respond, Bytes;
    var n := FindEnd(held).value;
    var reply := Respond(held[..n], config, root, false);
    ServeRequest(held, later, config, root);
    assert (held + later)[n..] == held[n..] + later;
    PrependNothing(Serve(held + later, config, root));
    ProgressThen(stream, config, root, done, k, held + later, [reply], n, held[n..] + later, reply.close);
    WireOfProgress(stream, config, root, done + [reply], k + n, held[n..] + later, reply.close);
    FlattenSnoc(done, reply);
  }

  /** What has been answered so far is the beginning of what the whole run puts on the wire. */
  lemma WireOfProgress(
    stream: string, config: Config, root: string -> Entry, done: seq<Reply>, k: nat, rest: string, closing: bool)
    requires Progress(stream, config, root, done, k, rest, closing)
    ensures Flatten(done) <= Wire(Serve(stream, config, root))
    ensures closing ==> Flatten(done) == Wire(Serve(stream, config, root))
    ensures !closing ==>
              Wire(Serve(stream, config, root)) == Flatten(done) + Wire(Serve(rest, config, root))
  {
    hide Serve;
    if !closing {
      FlattenConcat(done, Serve(rest, config, root).replies);
    }
  }

  /** The same, with the answers on the wire after what was there `before`. */
  ghost predicate Answered(
    stream: string, config: Config, root: string -> Entry, done: seq<Reply>, k: nat, rest: string, closing: bool,
    before: string, wire: string)
  {
    Progress(stream, config, root, done, k, rest, closing) && wire == before + Flatten(done)
  }

  lemma AnsweredNothing(stream: string, config: Config, root: string -> Entry, wire: string)
    ensures Answered(stream, config, root, [], 0, stream, false, wire, wire)
  {
    hide Serve;
    ProgressStart(stream, config, root);
    assert wire + "" == wire;
  }

  lemma AnsweredRequest(
    stream: string, config: Config, root: string -> Entry, done: seq<Reply>, k: nat, held: string, later: string,
    before: string, wire: string)
    requires Answered(stream, config, root, done, k, held + later, false, before, wire)
    requires |held| <= config.bufferSize && FindEnd(held).Some?
    ensures var n := FindEnd(held).value;
            var reply := Respond(held[..n], config, root, false);
            && Answered(stream, config, root, done + [reply], k + n, held[n..] + later, reply.close,
                        before, wire + Bytes(reply))
            && before <= wire && wire + Bytes(reply) <= before + Wire(Serve(stream, config, root))
  {
    hide Serve, Respond, Bytes, Flatten, Wire, Progress;
    var reply := Respond(held[..FindEnd(held).value], config, root, false);
    ProgressRequest(stream, config, root, done, k, held, later);
    FlattenSnoc(done, reply);
    Concat3(before, Flatten(done), Bytes(reply));
    ConcatPrefix(before, Flatten(done) + Bytes(reply), Wire(Serve(stream, config, root)));
  }

  lemma AnsweredWire(
    stream: string, config: Config, root: string -> Entry, done: seq<Reply>, k: nat, rest: string, closing: bool,
    before: string, wire: string)
    requires Answered(stream, config, root, done, k, rest, closing, before, wire)
    ensures before <= wire <= before + Wire(Serve(stream, config, root))
    ensures closing ==> wire == before + Wire(Serve(stream, config, root))
    ensures !closing ==> before + Wire(Serve(stream, config, root)) == wire + Wire(Serve(rest, config, root))
  {
    hide Serve, Flatten, Wire, Progress;
    WireOfProgress(stream, config, root, done, k, rest, closing);
    ConcatPrefix(before, Flatten(done), Wire(Serve(stream, config, root)));
    Concat3(before, Flatten(done), Wire(Serve(rest, config, root)));
  }

  lemma AnsweredThen(
    stream: string, config: Config, root: string -> Entry, done: seq<Reply>, k: nat, middle: string,
    more: seq<Reply>, m: nat, rest: string, closing: bool, before: string, between: string, wire: string)
    requires Answered(stream, config, root, done, k, middle, false, before, between)
    requires Answered(middle, config, root, more, m, rest, closing, between, wire)
    ensures Answered(stream, config, root, done + more, k + m, rest, closing, before, wire)
  {
    hide Serve, Flatten, Progress;
    ProgressThen(stream, config, root, done, k, middle, more, m, rest, closing);
    FlattenConcat(done, more);
    Concat3(before, Flatten(done), Flatten(more));
  }
}
