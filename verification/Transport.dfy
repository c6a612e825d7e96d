/**
  The client's socket as the server sees it: recv and send, under a schedule. The schedule says
  how much each call moves, which calls are interrupted, and where the connection fails; past
  its end every call moves as much as it can.
*/
module Transport {

  datatype RecvEvent = RecvUpTo(limit: nat) | RecvInterrupted | RecvTimedOut | RecvFailed

  datatype SendEvent = SendUpTo(limit: nat) | SendInterrupted | SendNothing | SendFailed

  datatype RecvResult = Data(data: string) | RecvEintr | RecvEagain | RecvBroken

  datatype SendResult = Sent(count: nat) | SendEintr | SendBroken

  function Min(a: nat, b: nat): nat {
    if a <= b then a else b
  }

  /** At least one octet, at most `limit` and at most `available`. */
  function Amount(limit: nat, available: nat): nat {
    Min(if limit == 0 then 1 else limit, available)
  }

  class Socket {
    var incoming: string
    var recvPlan: seq<RecvEvent>
    var sendPlan: seq<SendEvent>
    var wire: string

    constructor (incoming: string, recvPlan: seq<RecvEvent>, sendPlan: seq<SendEvent>)
      ensures this.incoming == incoming && this.recvPlan == recvPlan && this.sendPlan == sendPlan
      ensures wire == ""
    {
      this.incoming, this.recvPlan, this.sendPlan, wire := incoming, recvPlan, sendPlan, "";
    }

    /** No recv is scheduled to time out or fail. */
    ghost predicate CleanRecvs()
      reads `recvPlan
    {
      forall i :: 0 <= i < |recvPlan| ==> recvPlan[i].RecvUpTo? || recvPlan[i].RecvInterrupted?
    }

    /** No send is scheduled to fail or to send nothing. */
    ghost predicate CleanSends()
      reads `sendPlan
    {
      forall i :: 0 <= i < |sendPlan| ==> sendPlan[i].SendUpTo? || sendPlan[i].SendInterrupted?
    }

    /** recv: no data is the end of the stream. */
    method Recv(capacity: nat) returns (r: RecvResult)
      requires capacity > 0
      modifies `incoming, `recvPlan
      ensures r.Data? ==> r.data + incoming == old(incoming) && |r.data| <= capacity
      ensures r.Data? ==> (r.data == "" <==> old(incoming) == "")
      ensures !r.Data? ==> incoming == old(incoming)
      ensures |recvPlan| <= |old(recvPlan)|
      ensures r.RecvEintr? ==> |recvPlan| < |old(recvPlan)|
      ensures old(CleanRecvs()) ==> CleanRecvs() && (r.Data? || r.RecvEintr?)
    {
      var event := RecvUpTo(capacity);
      if |recvPlan| > 0 {
        event := recvPlan[0];
        recvPlan := recvPlan[1..];
      }
      match event
      case RecvUpTo(limit) =>
        var n := Amount(limit, Min(capacity, |incoming|));
        r := Data(incoming[..n]);
        incoming := incoming[n..];
      case RecvInterrupted => r := RecvEintr;
      case RecvTimedOut => r := RecvEagain;
      case RecvFailed => r := RecvBroken;
    }

    /** send and sendfile: a prefix of `data` goes on the wire. */
    method Send(data: string) returns (r: SendResult)
      requires data != ""
      modifies `wire, `sendPlan
      ensures r.Sent? ==> r.count <= |data| && wire == old(wire) + data[..r.count]
      ensures !r.Sent? ==> wire == old(wire)
      ensures |sendPlan| <= |old(sendPlan)|
      ensures r.SendEintr? ==> |sendPlan| < |old(sendPlan)|
      ensures old(CleanSends()) ==> CleanSends() && (r.SendEintr? || (r.Sent? && r.count > 0))
    {
      var event := SendUpTo(|data|);
      if |sendPlan| > 0 {
        event := sendPlan[0];
        sendPlan := sendPlan[1..];
      }
      match event
      case SendUpTo(limit) =>
        var n := Amount(limit, |data|);
        r := Sent(n);
        wire := wire + data[..n];
      case SendInterrupted => r := SendEintr;
      case SendNothing =>
        r := Sent(0);
      case SendFailed => r := SendBroken;
    }
  }

  /**
    io_send_all: everything, or what went out before send returned 0, or -1 after an error,
    when only a prefix is known to have gone out.
  */
  method IoSendAll(socket: Socket, data: string) returns (total: int)
    modifies socket`wire, socket`sendPlan
    ensures -1 <= total <= |data|
    ensures total >= 0 ==> socket.wire == old(socket.wire) + data[..total]
    ensures old(socket.wire) <= socket.wire <= old(socket.wire) + data
    ensures old(socket.CleanSends()) ==> socket.CleanSends() && total == |data|
  {
    var sentSoFar := 0;
    while sentSoFar < |data|
      invariant 0 <= sentSoFar <= |data|
      invariant socket.wire == old(socket.wire) + data[..sentSoFar]
      invariant old(socket.CleanSends()) ==> socket.CleanSends()
      decreases |data| - sentSoFar, |socket.sendPlan|
    {
      var r := socket.Send(data[sentSoFar..]);
      match r
      case SendEintr =>
      case SendBroken => return -1;
      case Sent(count) =>
        if count == 0 {
          break;
        }
        assert data[..sentSoFar] + data[sentSoFar..][..count] == data[..sentSoFar + count];
        sentSoFar := sentSoFar + count;
    }
    return sentSoFar;
  }
}
