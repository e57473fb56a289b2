/** What a client session promises about the notifications it sends, stated against
    a reference description of the whole trace and proved for every script of reads. */
module SessionProperties {
  import opened Notifications
  import opened Session

  /** One `NewMessage` per delivered chunk, in order: the `j`-th carries the
      session's address, the clock at the `j`-th read and the decoding of that
      chunk alone. */
  function Messages(addr: SocketAddr, chunks: seq<seq<byte>>, decode: seq<byte> -> string,
                    clock: nat -> Timestamp): (ms: seq<Notification>)
    ensures |ms| == |chunks|
  {
    seq(|chunks|, j requires 0 <= j < |chunks| => NewMessage(ClientMessage(addr, clock(j), decode(chunks[j]))))
  }

  /** How the loop ends, decided by the first outcome that is not a non-empty read. */
  function Verdict(outcomes: seq<ReadOutcome>): Exit
  {
    var k := |Delivered(outcomes)|;
    if k == |outcomes| then Reading
    else if outcomes[k].ReadErr? then ReturnedErr
    else ReturnedOk
  }

  /** The notice a session sends last: a disconnection after a zero-length read, nothing otherwise. */
  function Farewell(addr: SocketAddr, exit: Exit): seq<Notification>
  {
    if exit == ReturnedOk then [ClientDisconnection(addr)] else []
  }

  /** The trace a session is meant to produce, described as a whole: the connection,
      one message per delivered chunk, and a disconnection only after a clean close. */
  function Expected(addr: SocketAddr, outcomes: seq<ReadOutcome>, decode: seq<byte> -> string,
                    clock: nat -> Timestamp): Trace
  {
    var exit := Verdict(outcomes);
    Trace([ClientConnection(addr)] + Messages(addr, Delivered(outcomes), decode, clock) + Farewell(addr, exit), exit)
  }

  /** From read `i` on, within the delivered run, the loop sends the remaining messages
      and then the closing notice. */
  lemma {:induction false} StepsFrom(addr: SocketAddr, outcomes: seq<ReadOutcome>, decode: seq<byte> -> string,
                                     clock: nat -> Timestamp, i: nat)
    requires i <= |Delivered(outcomes)|
    ensures Steps(addr, outcomes, decode, clock, i).exit == Verdict(outcomes)
    ensures Steps(addr, outcomes, decode, clock, i).sent
         == Messages(addr, Delivered(outcomes), decode, clock)[i..] + Farewell(addr, Verdict(outcomes))
    decreases |outcomes| - i
  {
    var chunks := Delivered(outcomes);
    var ms := Messages(addr, chunks, decode, clock);
    if i < |chunks| {
      StepsFrom(addr, outcomes, decode, clock, i + 1);
      assert ms[i..] == [ms[i]] + ms[i + 1..];
    }
  }

  /** The session's trace is exactly the reference trace. */
  lemma {:induction false} SessionShape(addr: SocketAddr, outcomes: seq<ReadOutcome>, decode: seq<byte> -> string,
                                        clock: nat -> Timestamp)
    ensures ClientSession(addr, outcomes, decode, clock) == Expected(addr, outcomes, decode, clock)
  {
    StepsFrom(addr, outcomes, decode, clock, 0);
    var ms := Messages(addr, Delivered(outcomes), decode, clock);
    assert ms[0..] == ms;
  }

  /** Every notification of a session carries the address captured when it started. */
  lemma SameAddressThroughout(addr: SocketAddr, outcomes: seq<ReadOutcome>, decode: seq<byte> -> string,
                              clock: nat -> Timestamp)
    ensures forall k :: 0 <= k < |ClientSession(addr, outcomes, decode, clock).sent|
              ==> Origin(ClientSession(addr, outcomes, decode, clock).sent[k]) == addr
  {
    SessionShape(addr, outcomes, decode, clock);
  }

  /** Each non-empty read before the session stops yields exactly one `NewMessage`, in
      read order, made from that read's bytes alone, which number between 1 and the
      buffer size; the messages occupy positions 1 to the number of such reads and
      nothing else in the trace is a message. */
  lemma OneMessagePerRead(addr: SocketAddr, outcomes: seq<ReadOutcome>, decode: seq<byte> -> string,
                          clock: nat -> Timestamp)
    requires FitsBuffer(outcomes)
    ensures var t, n := ClientSession(addr, outcomes, decode, clock), |Delivered(outcomes)|;
      && |t.sent| == 1 + n + (if t.exit == ReturnedOk then 1 else 0)
      && (forall j :: 0 <= j < n ==>
            && t.sent[1 + j] == NewMessage(ClientMessage(addr, clock(j), decode(outcomes[j].data)))
            && 0 < |outcomes[j].data| <= BufSize)
      && (forall k :: 0 <= k < |t.sent| ==> (t.sent[k].NewMessage? <==> 1 <= k <= n))
  {
    SessionShape(addr, outcomes, decode, clock);
    var t, d := ClientSession(addr, outcomes, decode, clock), Delivered(outcomes);
    var ms := Messages(addr, d, decode, clock);
    var bye := Farewell(addr, t.exit);
    assert t.sent == [ClientConnection(addr)] + ms + bye;
    forall j | 0 <= j < |d|
      ensures t.sent[1 + j] == NewMessage(ClientMessage(addr, clock(j), decode(outcomes[j].data)))
    {
      assert t.sent[1 + j] == ms[j];
    }
    forall k | 0 <= k < |t.sent|
      ensures t.sent[k].NewMessage? <==> 1 <= k <= |d|
    {
      if k == 0 {
      } else if k <= |d| {
        assert t.sent[k] == ms[k - 1];
      } else {
        assert t.sent[k] == bye[k - 1 - |d|];
      }
    }
  }

  /** A zero-length read ends the session cleanly: the session returns `Ok` exactly
      when the read that stops it is `Ok(0)`, and then the disconnection is the last
      notification and the only one. */
  lemma CloseEndsSession(addr: SocketAddr, outcomes: seq<ReadOutcome>, decode: seq<byte> -> string,
                         clock: nat -> Timestamp)
    ensures var t, n := ClientSession(addr, outcomes, decode, clock), |Delivered(outcomes)|;
      && (t.exit == ReturnedOk <==> n < |outcomes| && outcomes[n] == ReadOk([]))
      && (t.exit == ReturnedOk ==> t.sent[|t.sent| - 1] == ClientDisconnection(addr))
      && (forall k :: 0 <= k < |t.sent| && t.sent[k].ClientDisconnection? ==>
            k == |t.sent| - 1 && t.exit == ReturnedOk)
  {
    SessionShape(addr, outcomes, decode, clock);
  }

  /** A read error ends the session with `Err` and without a disconnection: after the
      connection notice the trace holds only messages. */
  lemma ErrorEndsSession(addr: SocketAddr, outcomes: seq<ReadOutcome>, decode: seq<byte> -> string,
                         clock: nat -> Timestamp)
    ensures var t, n := ClientSession(addr, outcomes, decode, clock), |Delivered(outcomes)|;
      && (t.exit == ReturnedErr <==> n < |outcomes| && outcomes[n].ReadErr?)
      && (t.exit == ReturnedErr ==> |t.sent| == 1 + n && forall k :: 1 <= k < |t.sent| ==> t.sent[k].NewMessage?)
  {
    SessionShape(addr, outcomes, decode, clock);
  }

  /** Further outcomes never change the chunks already delivered, and once the loop
      has stopped they are not consumed at all. */
  lemma {:induction false} DeliveredExtends(outcomes: seq<ReadOutcome>, more: seq<ReadOutcome>)
    ensures Delivered(outcomes) <= Delivered(outcomes + more)
    ensures |Delivered(outcomes)| < |outcomes| ==> Delivered(outcomes + more) == Delivered(outcomes)
  {
    if outcomes != [] && Delivers(outcomes[0]) {
      assert (outcomes + more)[1..] == outcomes[1..] + more;
      DeliveredExtends(outcomes[1..], more);
    }
  }

  /** The channel is append-only: reading further only adds notifications after those
      already sent, and once the session has returned nothing more is ever sent. */
  lemma TraceOnlyGrows(addr: SocketAddr, outcomes: seq<ReadOutcome>, more: seq<ReadOutcome>,
                       decode: seq<byte> -> string, clock: nat -> Timestamp)
    ensures ClientSession(addr, outcomes, decode, clock).sent <= ClientSession(addr, outcomes + more, decode, clock).sent
    ensures ClientSession(addr, outcomes, decode, clock).exit != Reading
            ==> ClientSession(addr, outcomes + more, decode, clock) == ClientSession(addr, outcomes, decode, clock)
  {
    SessionShape(addr, outcomes, decode, clock);
    SessionShape(addr, outcomes + more, decode, clock);
    DeliveredExtends(outcomes, more);
    var d, d' := Delivered(outcomes), Delivered(outcomes + more);
    var ms, ms' := Messages(addr, d, decode, clock), Messages(addr, d', decode, clock);
    if |d| < |outcomes| {
      assert (outcomes + more)[|d|] == outcomes[|d|];
    } else {
      assert ms <= ms';
    }
  }

  /** A client that writes one message and then shuts down its write half: the
      session reports the connection, that message and the disconnection, and
      returns `Ok`. */
  lemma WriteThenShutdown(addr: SocketAddr, data: seq<byte>, decode: seq<byte> -> string,
                          clock: nat -> Timestamp)
    requires 0 < |data| <= BufSize
    ensures ClientSession(addr, [ReadOk(data), ReadOk([])], decode, clock)
         == Trace([ClientConnection(addr), NewMessage(ClientMessage(addr, clock(0), decode(data))),
                   ClientDisconnection(addr)], ReturnedOk)
  {
    var outcomes := [ReadOk(data), ReadOk([])];
    assert Steps(addr, outcomes, decode, clock, 1) == Trace([ClientDisconnection(addr)], ReturnedOk);
  }
}
