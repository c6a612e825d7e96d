/**
  src/http_connection.c: the fixed-capacity receive buffer of a connection. The ghost fields
  `received` and `consumed` are all the octets ever fed in and ever taken out.
*/
module ConnectionBuffer {
  import opened Wrappers
  import opened Text
  import opened Responses
  import opened ResponseSender

  /** http_find_header_end on the first `length` octets of `buffer`; None for NULL. */
  method FindHeaderEnd(buffer: array<char>, length: nat) returns (end: Option<nat>)
    requires length <= buffer.Length
    ensures end == FindEnd(buffer[..length])
  {
    if length < 4 {
      return None;
    }
    ghost var s := buffer[..length];
    for i := 0 to length - 3
      invariant forall j :: j < i ==> !BlankLineAt(s, j)
    {
      if buffer[i] == '\r' && buffer[i + 1] == '\n' && buffer[i + 2] == '\r' && buffer[i + 3] == '\n' {
        assert BlankLineAt(s, i);
        return Some(i + 4);
      }
      assert !BlankLineAt(s, i);
    }
    return None;
  }

  class Connection {
    const buffer: array<char>
    var bufferUsed: nat
    const bufferCapacity: nat
    var closeConnection: bool
    const response: Response
    ghost var received: string
    ghost var consumed: string

    /** http_connection_init, for a capacity the caller has checked */
    constructor (capacity: nat)
      ensures Valid() && fresh(buffer) && fresh(response) && fresh(response.headers)
      ensures bufferCapacity == capacity && !closeConnection
      ensures response.headers.Length == HTTP_RESPONSE_HEADER_MAX
      ensures received == consumed == Contents() == ""
    {
      buffer := new char[capacity];
      response := new Response();
      bufferUsed, bufferCapacity, closeConnection := 0, capacity, false;
      received, consumed := "", "";
    }

    /** Nothing is lost, repeated or reordered: what came in is what went out and what is held. */
    ghost predicate Valid()
      reads this, buffer
    {
      && bufferUsed <= bufferCapacity == buffer.Length
      && buffer != response.headers
      && received == consumed + buffer[..bufferUsed]
    }

    ghost function Contents(): string
      requires Valid()
      reads this, buffer
    {
      buffer[..bufferUsed]
    }

    /** http_connection_buffer_space */
    method BufferSpace() returns (space: nat)
      requires Valid()
      ensures space == bufferCapacity - |Contents()|
    {
      return bufferCapacity - bufferUsed;
    }

    /** http_connection_request_ready */
    method RequestReady() returns (ready: bool)
      requires Valid()
      ensures ready == FindEnd(Contents()).Some?
    {
      var end := FindHeaderEnd(buffer, bufferUsed);
      return end.Some?;
    }

    /** http_connection_request_length */
    method RequestLength() returns (length: nat)
      requires Valid()
      ensures length == match FindEnd(Contents()) case None => 0 case Some(n) => n
    {
      var end := FindHeaderEnd(buffer, bufferUsed);
      return if end.None? then 0 else end.value;
    }

    /** http_connection_feed: all of `data` or, if it does not fit, none of it. */
    method Feed(data: string) returns (result: int)
      requires Valid()
      modifies `bufferUsed, `received, buffer
      ensures Valid()
      ensures result == if |data| > bufferCapacity - |old(Contents())| then -1 else 0
      ensures Contents() == if result == 0 then old(Contents()) + data else old(Contents())
      ensures received == if result == 0 then old(received) + data else old(received)
    {
      if |data| > bufferCapacity - bufferUsed {
        return -1;
      }
      MemCpy(buffer, bufferUsed, data);
      ghost var before := old(buffer[..bufferUsed]);
      bufferUsed, received := bufferUsed + |data|, received + data;
      assert buffer[..bufferUsed] == before + data;
      return 0;
    }

    /**
      http_connection_consume: the first `length` octets go, and memmove brings the rest to the
      front; source and destination overlap. A length beyond what is held is ignored.
    */
    method Consume(length: nat)
      requires Valid()
      modifies `bufferUsed, `consumed, buffer
      ensures Valid()
      ensures length > |old(Contents())| ==> Contents() == old(Contents()) && consumed == old(consumed)
      ensures length <= |old(Contents())| ==>
                && Contents() == old(Contents())[length..]
                && consumed == old(consumed) + old(Contents())[..length]
    {
      if length > bufferUsed {
        return;
      }
      ghost var before := buffer[..bufferUsed];
      var remaining := bufferUsed - length;
      if remaining > 0 {
        MemMoveDown(buffer, length, remaining);
      }
      bufferUsed, consumed := remaining, consumed + before[..length];
      assert buffer[..remaining] == before[length..];
      assert before == before[..length] + before[length..];
    }
  }

  /** memmove(buffer, buffer + from, count): ascending, so no octet is overwritten before it is read. */
  method MemMoveDown(buffer: array<char>, from: nat, count: nat)
    requires from + count <= buffer.Length
    modifies buffer
    ensures buffer[..count] == old(buffer[from..from + count])
  {
    for i := 0 to count
      invariant forall k :: 0 <= k < i ==> buffer[k] == old(buffer[from + k])
      invariant forall k :: i <= k < buffer.Length ==> buffer[k] == old(buffer[k])
    {
      buffer[i] := buffer[from + i];
    }
  }

  /** memcpy(buffer + to, data, |data|) */
  method MemCpy(buffer: array<char>, to: nat, data: string)
    requires to + |data| <= buffer.Length
    modifies buffer
    ensures buffer[..to] == old(buffer[..to]) && buffer[to..to + |data|] == data
  {
    for i := 0 to |data|
      invariant forall k :: 0 <= k < i ==> buffer[to + k] == data[k]
      invariant forall k :: 0 <= k < to ==> buffer[k] == old(buffer[k])
    {
      buffer[to + i] := data[i];
    }
  }
}
