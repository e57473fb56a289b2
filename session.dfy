/** One client session, `run_client`: it announces the connection, then reads the
    socket into a fixed 1024-byte buffer, reporting each non-empty read as a
    `NewMessage`, until the peer closes (a zero-length read) or a read fails.

    The socket is a script of read outcomes, one per call of `stream.read`, and the
    channel to the hub is the log of notifications sent on it, oldest first. Sends
    are assumed to succeed. The text decoding (`String::from_utf8_lossy`) and the
    clock (`chrono::Utc::now`) are library calls and come in as parameters. */
module Session {
  import opened Notifications

  /** Length of the read buffer `buf` (`[0; 1024]`); it is never resized. */
  const BufSize: nat := 1024

  /** What one call of `stream.read(&mut buf)` yields. `ReadOk(data)` is `Ok(n)` with
      `n == |data|` and `data` written over the front of the buffer, so `ReadOk([])`
      is `Ok(0)`, the peer's orderly close; `ReadErr` is `Err(_)`. */
  datatype ReadOutcome = ReadOk(data: seq<byte>) | ReadErr

  /** The value `stream.read` returns. */
  datatype ReadResult = Ok(n: nat) | Err

  /** Where the session stands once the script of reads is used up: still blocked in
      `stream.read` (the script ended first), or returned from `run_client` with
      `Ok(())` or with `Err(())`. */
  datatype Exit = Reading | ReturnedOk | ReturnedErr

  /** The notifications a session has sent, oldest first, and where it stands. */
  datatype Trace = Trace(sent: seq<Notification>, exit: Exit)

  /** A read that brings data, i.e. `Ok(n)` with `n > 0`. */
  predicate Delivers(o: ReadOutcome)
  {
    o.ReadOk? && |o.data| > 0
  }

  /** `Read::read` never reports more bytes than the buffer holds. */
  predicate FitsBuffer(outcomes: seq<ReadOutcome>)
  {
    forall i :: 0 <= i < |outcomes| && outcomes[i].ReadOk? ==> |outcomes[i].data| <= BufSize
  }

  /** The chunks the session receives before it stops: the data of the leading run of
      non-empty reads, in order. The first outcome after them, if any, ends the loop. */
  function Delivered(outcomes: seq<ReadOutcome>): (chunks: seq<seq<byte>>)
    ensures |chunks| <= |outcomes|
    ensures forall j :: 0 <= j < |chunks| ==> Delivers(outcomes[j]) && outcomes[j].data == chunks[j]
    ensures |chunks| < |outcomes| ==> !Delivers(outcomes[|chunks|])
  {
    if outcomes == [] || !Delivers(outcomes[0]) then [] else [outcomes[0].data] + Delivered(outcomes[1..])
  }

  /** What the `loop` of `run_client` sends from its `i`-th read on, one step per
      outcome: `Ok(0)` sends the disconnection and breaks, `Ok(n)` sends one message
      and reads again, `Err` returns at once. */
  function Steps(addr: SocketAddr, outcomes: seq<ReadOutcome>, decode: seq<byte> -> string,
                 clock: nat -> Timestamp, i: nat): Trace
    requires i <= |outcomes|
    decreases |outcomes| - i
  {
    if i == |outcomes| then Trace([], Reading)
    else match outcomes[i]
      case ReadErr => Trace([], ReturnedErr)
      case ReadOk(data) =>
        if |data| == 0 then Trace([ClientDisconnection(addr)], ReturnedOk)
        else
          var rest := Steps(addr, outcomes, decode, clock, i + 1);
          Trace([NewMessage(ClientMessage(addr, clock(i), decode(data)))] + rest.sent, rest.exit)
  }

  /** The whole session: the connection notice, sent before any read, then the loop. */
  function ClientSession(addr: SocketAddr, outcomes: seq<ReadOutcome>, decode: seq<byte> -> string,
                         clock: nat -> Timestamp): (t: Trace)
    ensures |t.sent| > 0 && t.sent[0] == ClientConnection(addr)
  {
    var rest := Steps(addr, outcomes, decode, clock, 0);
    Trace([ClientConnection(addr)] + rest.sent, rest.exit)
  }

  /** One `stream.read(&mut buf)`: the bytes received are written over the front of
      the buffer and the rest of the buffer keeps whatever an earlier read left. */
  method Read(outcome: ReadOutcome, buf: array<byte>) returns (r: ReadResult)
    requires outcome.ReadOk? ==> |outcome.data| <= buf.Length
    modifies buf
    ensures outcome.ReadErr? ==> r == Err && buf[..] == old(buf[..])
    ensures outcome.ReadOk? ==> r == Ok(|outcome.data|)
    ensures outcome.ReadOk? ==> buf[..r.n] == outcome.data && buf[r.n..] == old(buf[r.n..])
  {
    match outcome
    case ReadErr =>
      r := Err;
    case ReadOk(data) =>
      var j := 0;
      while j < |data|
        invariant j <= |data|
        invariant buf[..j] == data[..j]
        invariant buf[|data|..] == old(buf[|data|..])
      {
        buf[j] := data[j];
        j := j + 1;
      }
      r := Ok(|data|);
  }

  /** `run_client`: sends the connection notice, then reads into one fixed buffer
      and sends what each read brings, until the peer closes, a read fails, or the
      script of reads runs out. Returns what it sent and where it stopped. */
  method RunClient(addr: SocketAddr, outcomes: seq<ReadOutcome>, decode: seq<byte> -> string,
                   clock: nat -> Timestamp) returns (sent: seq<Notification>, exit: Exit)
    requires FitsBuffer(outcomes)
    ensures Trace(sent, exit) == ClientSession(addr, outcomes, decode, clock)
  {
    sent, exit := [ClientConnection(addr)], Reading;
    var buf := new byte[BufSize](_ => 0);
    var i := 0;
    while i < |outcomes|
      invariant i <= |outcomes| && buf.Length == BufSize && exit == Reading
      invariant ClientSession(addr, outcomes, decode, clock)
             == Trace(sent + Steps(addr, outcomes, decode, clock, i).sent, Steps(addr, outcomes, decode, clock, i).exit)
      decreases |outcomes| - i
    {
      var r := Read(outcomes[i], buf);
      match r {
        case Ok(n) =>
          if n == 0 {
            sent, exit := sent + [ClientDisconnection(addr)], ReturnedOk;
            break;
          }
          sent := sent + [NewMessage(ClientMessage(addr, clock(i), decode(buf[..n])))];
        case Err =>
          return sent, ReturnedErr;
      }
      i := i + 1;
    }
  }
}
