/**
  The receive loop of the UDP handler (async_UDP_multithread), run while the connection's
  lock is held: datagrams are copied one after the other into the connection's buffer, the
  last byte received is overwritten by a terminator, and the callback is given the result.
 */
module UdpDrain {
  import opened CTypes

  type Datagram = seq<Byte>

  /** A callback invocation: the size it is told and that many bytes of the buffer. */
  datatype Call = Call(size: nat, text: seq<Byte>)

  function Min(a: nat, b: nat): nat { if a < b then a else b }

  /** The buffer after recv has copied a datagram, cut to the room there is, over its start. */
  function Filled(buffer: seq<Byte>, d: Datagram): (r: seq<Byte>)
    ensures |r| == |buffer|
  {
    var n := Min(|d|, |buffer|);
    d[..n] + buffer[n..]
  }

  /** The buffer after the terminator has been written over the last of n received bytes. */
  function Terminated(buffer: seq<Byte>, n: nat): (r: seq<Byte>)
    requires 0 < n <= |buffer|
    ensures |r| == |buffer|
  {
    buffer[n - 1 := 0]
  }

  /** A non-blocking datagram socket. */
  class Socket {
    var pending: seq<Datagram>

    /** recv: the next datagram, cut to the room there is; -1 when none is waiting. */
    method Recv(buffer: array<Byte>) returns (n: int)
      modifies this, buffer
      ensures Received(old(pending), old(buffer[..]), n, pending, buffer[..])
      ensures old(pending) == [] ==> n == -1 && pending == [] && buffer[..] == old(buffer[..])
      ensures old(pending) != [] ==>
        var d := old(pending)[0];
        && n == (if |d| <= buffer.Length then |d| else buffer.Length)
        && pending == old(pending)[1..]
        && (forall j :: 0 <= j < n ==> buffer[j] == d[j])
        && (forall j :: n <= j < buffer.Length ==> buffer[j] == old(buffer[j]))
    {
      if pending == [] {
        return -1;
      }
      var d := pending[0];
      pending := pending[1..];
      n := Min(|d|, buffer.Length);
      forall j | 0 <= j < n {
        buffer[j] := d[j];
      }
      assert buffer[..] == d[..n] + old(buffer[..])[n..];
    }
  }

  /** What a call of recv returns and leaves behind. */
  ghost predicate Received(pending: seq<Datagram>, bytes: seq<Byte>, n: int,
                           pending': seq<Datagram>, bytes': seq<Byte>)
  {
    if pending == [] then n == -1 && pending' == [] && bytes' == bytes
    else
      && n == Min(|pending[0]|, |bytes|)
      && pending' == pending[1..]
      && bytes' == Filled(bytes, pending[0])
  }

  /** What the callback gets to see of a datagram. */
  function Delivered(d: seq<Byte>, size: nat): Call
    requires d != [] && size > 0
  {
    var n := Min(|d|, size);
    Call(n, d[..n - 1] + [0])
  }

  /** The call is told what fits of the datagram, and gets those bytes except for a zero as the last of them. */
  predicate IsDelivery(call: Call, d: Datagram, size: nat) {
    && d != [] && size > 0
    && call.size == |call.text| == (if |d| <= size then |d| else size)
    && (forall j :: 0 <= j < call.size - 1 ==> call.text[j] == d[j])
    && call.text[call.size - 1] == 0
  }

  lemma DeliveredIsDelivery(d: Datagram, size: nat)
    requires d != [] && size > 0
    ensures IsDelivery(Delivered(d, size), d, size)
  {}

  lemma DeliveredFromBuffer(buffer: seq<Byte>, d: Datagram)
    requires d != [] && buffer != []
    ensures var n := Min(|d|, |buffer|);
      Call(n, Terminated(Filled(buffer, d), n)[..n]) == Delivered(d, |buffer|)
  {}

  /** recv returns 0 for such a datagram, which ends the loop. */
  predicate Stops(d: Datagram, size: nat) {
    Min(|d|, size) == 0
  }

  /** The callbacks that a sequence of received datagrams calls for, in order. */
  function CallsFor(ds: seq<Datagram>, size: nat): seq<Call> {
    if ds == [] then []
    else
      var last := ds[|ds| - 1];
      CallsFor(ds[..|ds| - 1], size) + (if Stops(last, size) then [] else [Delivered(last, size)])
  }

  /** The datagrams among them that are handed over. */
  function Handed(ds: seq<Datagram>, size: nat): seq<Datagram> {
    if ds == [] then []
    else
      var last := ds[|ds| - 1];
      Handed(ds[..|ds| - 1], size) + (if Stops(last, size) then [] else [last])
  }

  /** The k-th call is for the k-th of them. */
  lemma {:induction false} CallsAreForHanded(ds: seq<Datagram>, size: nat, k: nat)
    requires k < |CallsFor(ds, size)|
    ensures |CallsFor(ds, size)| == |Handed(ds, size)|
    ensures var d := Handed(ds, size)[k]; d != [] && size > 0 && CallsFor(ds, size)[k] == Delivered(d, size)
    decreases |ds|
  {
    var before := ds[..|ds| - 1];
    if CallsFor(before, size) == [] {
      AsManyCalls(before, size);
    } else {
      CallsAreForHanded(before, size, if k < |CallsFor(before, size)| then k else 0);
    }
  }

  lemma {:induction false} AsManyCalls(ds: seq<Datagram>, size: nat)
    ensures |CallsFor(ds, size)| == |Handed(ds, size)|
    decreases |ds|
  {
    if ds != [] { AsManyCalls(ds[..|ds| - 1], size); }
  }

  lemma {:induction false} HandedPrefix(ds: seq<Datagram>, n: nat, size: nat)
    requires n <= |ds|
    ensures Handed(ds[..n], size) <= Handed(ds, size)
    decreases |ds|
  {
    if n < |ds| {
      var before := ds[..|ds| - 1];
      assert before[..n] == ds[..n];
      HandedPrefix(before, n, size);
    } else {
      assert ds[..n] == ds;
    }
  }

  /** Handed goes through the datagrams in order. */
  lemma {:induction false} HandedInOrder(ds: seq<Datagram>, es: seq<Datagram>, size: nat)
    ensures Handed(ds + es, size) == Handed(ds, size) + Handed(es, size)
    decreases |es|
  {
    if es == [] {
      assert ds + es == ds;
    } else {
      var less, all := es[..|es| - 1], ds + es;
      assert all[..|all| - 1] == ds + less && all[|all| - 1] == es[|es| - 1];
      HandedInOrder(ds, less, size);
    }
  }

  /** It leaves out a datagram exactly if that is empty or there is no room. */
  lemma HandedOne(d: Datagram, size: nat)
    ensures Handed([d], size) == if d == [] || size == 0 then [] else [d]
  {
    assert [d][..0] == [];
  }

  /** A buffer after a sequence of datagrams has been received and handed over. */
  function BufferAfter(buffer: seq<Byte>, ds: seq<Datagram>): (r: seq<Byte>)
    ensures |r| == |buffer|
  {
    if ds == [] then buffer
    else
      var last := ds[|ds| - 1];
      var filled := Filled(BufferAfter(buffer, ds[..|ds| - 1]), last);
      if Stops(last, |buffer|) then filled else Terminated(filled, Min(|last|, |buffer|))
  }

  /** How many datagrams are handed over before the loop stops: recv also returns 0, and so
      ends the loop, at an empty datagram. */
  function Leading(pending: seq<Datagram>, size: nat): (k: nat)
    ensures k <= |pending|
    ensures size > 0 ==> forall i :: 0 <= i < k ==> pending[i] != []
    ensures size > 0 && k < |pending| ==> pending[k] == []
    ensures size == 0 ==> k == 0
  {
    if size == 0 || pending == [] || pending[0] == [] then 0 else 1 + Leading(pending[1..], size)
  }

  /** One pass through the loop body: terminate the text and call back. */
  method HandOver(buffer: array<Byte>, n: nat) returns (call: Call)
    requires 0 < n <= buffer.Length
    modifies buffer
    ensures buffer[..] == Terminated(old(buffer[..]), n)
    ensures buffer[n - 1] == 0 && forall j :: 0 <= j < buffer.Length && j != n - 1 ==> buffer[j] == old(buffer[j])
    ensures call == Call(n, buffer[..n])
  {
    var bufferSize := buffer.Length;
    var at := if n - 1 <= bufferSize then n - 1 else bufferSize;
    buffer[at] := 0;
    call := Call(n, buffer[..n]);
  }

  /** How many datagrams one pass through the loop takes from the socket: those handed over and, if there is
      one, the datagram that stops it. */
  function Taken(pending: seq<Datagram>, size: nat): (t: nat)
    ensures t <= |pending|
  {
    Min(Leading(pending, size) + 1, |pending|)
  }

  lemma CallsForOneMore(ds: seq<Datagram>, j: nat, size: nat)
    requires j < |ds|
    ensures CallsFor(ds[..j + 1], size) ==
            CallsFor(ds[..j], size) + (if Stops(ds[j], size) then [] else [Delivered(ds[j], size)])
  {
    assert ds[..j + 1][..j] == ds[..j];
  }

  lemma BufferOneMore(buffer: seq<Byte>, ds: seq<Datagram>, j: nat)
    requires j < |ds|
    ensures var filled := Filled(BufferAfter(buffer, ds[..j]), ds[j]);
      BufferAfter(buffer, ds[..j + 1]) ==
      if Stops(ds[j], |buffer|) then filled else Terminated(filled, Min(|ds[j]|, |buffer|))
  {
    assert ds[..j + 1][..j] == ds[..j];
  }

  lemma {:induction false} CallsForLeading(ds: seq<Datagram>, j: nat, size: nat)
    requires j <= Leading(ds, size)
    ensures var calls := CallsFor(ds[..j], size);
      |calls| == j && forall i :: 0 <= i < j ==> calls[i] == Delivered(ds[i], size)
  {
    if j > 0 {
      CallsForLeading(ds, j - 1, size);
      CallsForOneMore(ds, j - 1, size);
    }
  }

  /** The loop's state after some callbacks: what they were given, and what recv returned last. */
  ghost predicate Progress(start: seq<Byte>, was: seq<Datagram>, calls: seq<Call>,
                           pending: seq<Datagram>, n: int, bytes: seq<Byte>)
  {
    var size, j, k := |start|, |calls|, Leading(was, |start|);
    && j <= k
    && calls == CallsFor(was[..j], size)
    && pending == was[Min(j + 1, |was|)..]
    && n == (if j < |was| then Min(|was[j]|, size) else -1)
    && (n > 0 <==> j < k)
    && bytes == if j < |was| then Filled(BufferAfter(start, was[..j]), was[j]) else BufferAfter(start, was)
  }

  lemma FirstRecv(start: seq<Byte>, was: seq<Datagram>, n: int, pending: seq<Datagram>, bytes: seq<Byte>)
    requires Received(was, start, n, pending, bytes)
    ensures Progress(start, was, [], pending, n, bytes)
  {}

  /** recv returns a positive number for exactly the datagrams before the loop stops. */
  lemma LeadingIff(pending: seq<Datagram>, size: nat, j: nat)
    requires j <= Leading(pending, size) && j < |pending|
    ensures j < Leading(pending, size) <==> Min(|pending[j]|, size) > 0
  {}

  lemma NextReceived(start: seq<Byte>, was: seq<Datagram>, j: nat, n: int, pending: seq<Datagram>, bytes: seq<Byte>)
    requires j < |was| && Received(was[j + 1..], BufferAfter(start, was[..j + 1]), n, pending, bytes)
    ensures pending == was[Min(j + 2, |was|)..]
    ensures n == (if j + 1 < |was| then Min(|was[j + 1]|, |start|) else -1)
    ensures bytes == if j + 1 < |was| then Filled(BufferAfter(start, was[..j + 1]), was[j + 1])
                     else BufferAfter(start, was)
  {
    if j + 1 < |was| {
      assert was[j + 1..][0] == was[j + 1] && was[j + 1..][1..] == was[j + 2..];
    } else {
      assert was[..j + 1] == was;
    }
  }

  lemma NextRecv(start: seq<Byte>, was: seq<Datagram>, calls: seq<Call>, pending: seq<Datagram>, m: int,
                 filled: seq<Byte>, n: int, pending': seq<Datagram>, bytes: seq<Byte>)
    requires Progress(start, was, calls, pending, m, filled) && 0 < m <= |filled|
    requires Received(pending, Terminated(filled, m), n, pending', bytes)
    ensures Progress(start, was, calls + [Delivered(was[|calls|], |start|)], pending', n, bytes)
  {
    var j := |calls|;
    CallsForOneMore(was, j, |start|);
    BufferOneMore(start, was, j);
    NextReceived(start, was, j, n, pending', bytes);
    if j + 1 < |was| { LeadingIff(was, |start|, j + 1); }
  }

  lemma LoopEnd(start: seq<Byte>, was: seq<Datagram>, calls: seq<Call>, pending: seq<Datagram>, n: int,
                bytes: seq<Byte>)
    requires Progress(start, was, calls, pending, n, bytes) && n <= 0
    ensures var t := Taken(was, |start|);
      calls == CallsFor(was[..t], |start|) && bytes == BufferAfter(start, was[..t]) && pending == was[t..]
  {
    var j := |calls|;
    if j < |was| {
      CallsForOneMore(was, j, |start|);
      BufferOneMore(start, was, j);
    } else {
      assert was[..j] == was;
    }
  }

  method Drain(socket: Socket, buffer: array<Byte>) returns (calls: seq<Call>)
    modifies socket, buffer
    ensures var was, t := old(socket.pending), Taken(old(socket.pending), buffer.Length);
      && calls == CallsFor(was[..t], buffer.Length)
      && buffer[..] == BufferAfter(old(buffer[..]), was[..t])
      && socket.pending == was[t..]
    ensures var was, k := old(socket.pending), Leading(old(socket.pending), buffer.Length);
      |calls| == k && forall i :: 0 <= i < k ==> calls[i] == Delivered(was[i], buffer.Length)
  {
    calls := [];
    ghost var was, start := socket.pending, buffer[..];
    var n := socket.Recv(buffer);
    FirstRecv(start, was, n, socket.pending, buffer[..]);
    while n > 0
      invariant Progress(start, was, calls, socket.pending, n, buffer[..])
      decreases Leading(was, buffer.Length) - |calls|
    {
      ghost var filled, m, pending := buffer[..], n, socket.pending;
      var call := HandOver(buffer, n);
      DeliveredFromBuffer(BufferAfter(start, was[..|calls|]), was[|calls|]);
      assert call == Delivered(was[|calls|], buffer.Length);
      n := socket.Recv(buffer);
      NextRecv(start, was, calls, pending, m, filled, n, socket.pending, buffer[..]);
      calls := calls + [call];
    }
    LoopEnd(start, was, calls, socket.pending, n, buffer[..]);
    CallsForLeading(was, |calls|, buffer.Length);
  }

  /** A datagram reaches the callback unaltered exactly when it fits and already ends in a
      zero byte; otherwise its last byte is lost. */
  lemma DeliveredIntactIff(d: seq<Byte>, size: nat)
    requires d != [] && size > 0
    ensures Delivered(d, size).text == d <==> |d| <= size && d[|d| - 1] == 0
  {
    var t := Delivered(d, size).text;
    if |d| <= size {
      assert d == d[..|d| - 1] + [d[|d| - 1]];
      assert t[|d| - 1] == 0;
    }
  }
}
