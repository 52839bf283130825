/** Exact-length transfer over a byte stream that may deliver or accept
    fewer bytes per call than asked for (`recv_exact` and `send_all`).

    The socket is modelled by the bytes still to arrive (for reading) and by
    an oracle saying how many bytes each successive system call moves: any
    amount TCP is allowed to move is reachable by some oracle, so what is
    proved here holds for every fragmentation of the stream. */
module Stream {

  import opened Results
  import opened Bytes

  /** Why a transfer could not be completed: the peer closed the stream. */
  datatype StreamError = ConnectionBroken

  /** Exactly `n` bytes read from the front of `s`, with what remains of
      the stream after them; the whole-stream view of `recv_exact`. */
  function Take(s: seq<byte>, n: nat): (r: Result<(seq<byte>, seq<byte>), StreamError>)
    ensures r.Ok? <==> n <= |s|
    ensures r.Ok? ==> |r.value.0| == n && r.value.0 + r.value.1 == s
  {
    if n <= |s| then Ok((s[..n], s[n..])) else Err(ConnectionBroken)
  }

  /** Reading a frame that was written whole: `Take` returns exactly what
      was written in front of the rest of the stream. */
  lemma TakeFront(a: seq<byte>, b: seq<byte>)
    ensures Take(a + b, |a|) == Ok((a, b))
  {
    assert (a + b)[..|a|] == a;
    assert (a + b)[|a|..] == b;
  }

  /** One `sock.recv(want)` call on a stream whose undelivered bytes are
      `pending`: it blocks until something arrives, then delivers between
      one and `want` bytes, `grant` choosing how many; it delivers nothing
      only once the peer has closed and everything has been read. */
  function Recv(pending: seq<byte>, want: nat, grant: nat): (packet: seq<byte>)
    requires want > 0
    ensures |packet| <= want
    ensures packet <= pending
    ensures |packet| == 0 <==> |pending| == 0
  {
    if |pending| == 0 then [] else pending[..1 + grant % Min(want, |pending|)]
  }

  /** `recv_exact(sock, n)`: loops over partial reads until `n` bytes have
      arrived, asking each time only for the bytes still missing, and fails
      if a read returns nothing first. `grant(k)` decides the size of the
      `k`-th read. */
  method RecvExact(stream: seq<byte>, n: nat, grant: nat -> nat)
    returns (r: Result<(seq<byte>, seq<byte>), StreamError>)
    ensures n <= |stream| ==> r == Ok((stream[..n], stream[n..]))
    ensures |stream| < n ==> r == Err(ConnectionBroken)
  {
    var data: seq<byte> := [];
    var pending := stream;
    var calls := 0;
    while |data| < n
      invariant |data| <= n
      invariant data + pending == stream
      decreases n - |data|
    {
      var packet := Recv(pending, n - |data|, grant(calls));
      if |packet| == 0 {
        return Err(ConnectionBroken);
      }
      data := data + packet;
      pending := pending[|packet|..];
      calls := calls + 1;
    }
    assert stream[..n] == data && stream[n..] == pending;
    return Ok((data, pending));
  }

  /** How many of `len` bytes have gone out after the first `k` calls of
      `send_all`'s loop, the `j`-th call taking at most `accept(j)` bytes. */
  function Sent(accept: nat -> nat, len: nat, k: nat): (total: nat)
    ensures total <= len
  {
    if k == 0 then 0
    else
      var before := Sent(accept, len, k - 1);
      before + Min(accept(k - 1), len - before)
  }

  /** Bytes already out never go back: `Sent` grows with the number of calls. */
  lemma {:induction false} SentGrows(accept: nat -> nat, len: nat, j: nat, k: nat)
    requires j <= k
    ensures Sent(accept, len, j) <= Sent(accept, len, k)
    decreases k - j
  {
    if j < k {
      SentGrows(accept, len, j, k - 1);
    }
  }

  /** The `k`-th call is the first that sends nothing while bytes remain:
      the call on which `send_all` raises. */
  predicate Stalls(accept: nat -> nat, len: nat, k: nat)
  {
    && accept(k) == 0
    && Sent(accept, len, k) < len
    && forall j: nat | j < k :: accept(j) > 0
  }

  /** `send_all(sock, data)`: loops over partial writes until every byte
      has gone out, and fails on a write that sends nothing. `accept(k)`
      bounds how many bytes the `k`-th `sock.send` takes; `wire` is what
      reached the stream. It fails exactly when some call stalls, and then
      `wire` holds the bytes the calls before it sent. */
  method SendAll(data: seq<byte>, accept: nat -> nat)
    returns (wire: seq<byte>, r: Result<(), StreamError>)
    ensures wire <= data
    ensures r.Ok? <==> wire == data
    ensures r.Err? ==> r == Err(ConnectionBroken)
    ensures r.Err? <==> exists k: nat :: Stalls(accept, |data|, k)
    ensures r.Err? ==> exists k: nat :: Stalls(accept, |data|, k) && |wire| == Sent(accept, |data|, k)
    ensures (forall k :: accept(k) > 0) ==> r.Ok?
  {
    wire := [];
    var totalSent := 0;
    var calls := 0;
    while totalSent < |data|
      invariant totalSent == Sent(accept, |data|, calls)
      invariant wire == data[..totalSent]
      invariant forall j: nat | j < calls :: accept(j) > 0
      decreases |data| - totalSent
    {
      var sent := Min(accept(calls), |data| - totalSent);
      if sent == 0 {
        assert Stalls(accept, |data|, calls);
        return wire, Err(ConnectionBroken);
      }
      wire := wire + data[totalSent..totalSent + sent];
      totalSent := totalSent + sent;
      calls := calls + 1;
    }
    forall k: nat | Stalls(accept, |data|, k)
      ensures false
    {
      if calls <= k {
        SentGrows(accept, |data|, calls, k);
      }
    }
    return wire, Ok(());
  }
}
