# localchat client session, modelled in Dafny

localchat is a small multi-client TCP chat server written in Rust. Each accepted
connection runs `run_client` on a worker thread. The function first sends a
`ClientConnection` notification carrying the peer's address over a channel to one
hub thread. It then reads the socket into a fixed 1024-byte buffer. Every
non-empty read is sent as a `NewMessage` holding the author, the time and the
decoded text of exactly the bytes read. A zero-length read (the peer closed)
sends `ClientDisconnection` and returns `Ok`. A read error is reported on standard error and `run_client` returns `Err`.
The hub (`handle_connection`) only prints what it receives. A `Sensitive<T>`
wrapper renders a placeholder instead of its value while the `SAFE_MODE` flag is
set.

This project models that per-connection protocol and the redaction wrapper:

- `notification.dfy` (module `Notifications`): `Notification`, `ClientMessage`,
  the peer address and the timestamp, as datatypes.
- `session.dfy` (module `Session`): the socket as a script of read outcomes, the
  channel as the log of sent notifications, the functional semantics of the loop
  (`Steps`, `ClientSession`), and `RunClient`. `RunClient` is the imperative
  loop. It reads into a real 1024-element array that is never cleared between
  reads, and it is proved to send exactly what `ClientSession` describes. That
  proof needs each message to be built from `buf[..n]` and not from the stale
  tail of the buffer.
- `session_properties.dfy` (module `SessionProperties`): a reference description
  of a whole session trace (`Expected`), the proof that the loop produces it, and
  the trace properties that follow from it.
- `redaction.dfy` (module `Redaction`): `Sensitive<T>` and its `Display`.

The hub keeps no client registry and relays nothing, so neither is modelled. A
read error sends no disconnection. `Sensitive` is defined but never used by the
hub's logging.

## Model

| member | source | states |
|---|---|---|
| Redaction.Render | src/server.rs:27-34 | The output always ends in a newline, as `writeln!` writes it. In safe mode it is exactly `"[CENSORED]\n"`. Otherwise, with the final newline removed, it is the value's own text. |
| Redaction.Display | src/server.rs:13-34 | With `SAFE_MODE` compiled in as `true`, every wrapped value renders as `"[CENSORED]\n"`. |
| Redaction.SafeModeHidesValue | src/server.rs:29-30 | In safe mode any two values, of any types and shown by any `Display`, render identically, so nothing about the value leaks. |
| Redaction.PlainModeRevealsValue | src/server.rs:31-32 | Without safe mode, two values render alike if and only if their own texts agree, so the rendering is faithful. |
| Session.Delivered | src/server.rs:114-139 | The chunks the loop receives are the data of the leading run of non-empty reads, in read order. The outcome right after them, if there is one, is not a non-empty read and stops the loop. |
| Session.ClientSession | src/server.rs:106-110 | Whatever the reads, a session's first notification is `ClientConnection` with the peer address. It is sent even when no read ever completes. |
| Session.Read | src/server.rs:116 | `stream.read(&mut buf)` returns `Ok(n)` with the `n` received bytes in `buf[..n]` and leaves `buf[n..]` as an earlier read left it. An error returns `Err`. |
| Session.RunClient | src/server.rs:106-142 | The imperative read loop over one fixed 1024-byte buffer sends exactly the notifications of `ClientSession`, in order, and stops exactly where `ClientSession` stops. |
| SessionProperties.Messages | src/server.rs:124-131 | There is one `NewMessage` per delivered chunk. |
| SessionProperties.StepsFrom | src/server.rs:114-139 | From read `i` inside the delivered run, the loop sends the remaining messages, then the disconnection if the session closes cleanly, and ends as the first stopping outcome dictates. |
| SessionProperties.SessionShape | src/server.rs:106-142 | A session's trace is exactly: the connection; one message per delivered chunk, carrying the address, the clock at that read and the decoding of that chunk; then a disconnection only if the stopping read was `Ok(0)`. |
| SessionProperties.SameAddressThroughout | src/server.rs:107-126 | Every notification of a session carries the address captured once at its start. |
| SessionProperties.OneMessagePerRead | src/server.rs:112-131 | The `j`-th non-empty read yields the message at position `1 + j`. Its text is the decoding of that read's bytes alone, which are never empty; that they number at most 1024 is the `Read::read` contract, assumed through `FitsBuffer` and restated here. Messages fill exactly positions 1 to the number of non-empty reads. The trace length is 1 plus that number, plus 1 after a clean close. |
| SessionProperties.CloseEndsSession | src/server.rs:117-122 | The session returns `Ok` if and only if its stopping read is `Ok(0)`. The disconnection is then the last notification. No disconnection appears anywhere else. |
| SessionProperties.ErrorEndsSession | src/server.rs:134-137 | The session returns `Err` if and only if its stopping read fails. The trace then holds no disconnection: it is the connection followed only by messages. |
| SessionProperties.DeliveredExtends | src/server.rs:114-139 | Later outcomes never change chunks already delivered. Once the loop has stopped, later outcomes are not consumed at all. |
| SessionProperties.TraceOnlyGrows | src/server.rs:114-141 | The channel is append-only: more reads only add notifications after those already sent. Once the session has returned, further outcomes change nothing: nothing is sent after the disconnection or the error. |
| SessionProperties.WriteThenShutdown | tests/lib.rs:16-22 | A client that writes one message of at most 1024 bytes and shuts down its write half produces exactly connection, that message, then disconnection, and the session returns `Ok`. |

## Left out

- `handle_connection` (the hub): it loops forever, receiving notifications and printing them, and keeps no state. Printing is output only.
- `run_server`: TCP bind and accept, the thread pool, and the `Arc<Mutex<...>>` wrapping of the stream and the sender. These are I/O and concurrency.
- Channel send failures and `peer_addr()` failures: the source panics through `.unwrap()`. The model assumes sends succeed and the address is known.
- `String::from_utf8_lossy`: a library call, passed in as the parameter `decode`. A character whose bytes are split across two reads is therefore not modelled.
- The `eprintln!` diagnostic that `run_client` writes before returning `Err`: output only, not modelled.
- `chrono::Utc::now()`: a clock, passed in as the parameter `clock`, indexed by the number of the read.
- The `Display` implementations of `Notification` and `ClientMessage`: log formatting through `Debug` of library types.
- How the transport splits a peer's bytes into reads: the script of read outcomes is given, so the model does not say that one large write arrives as several reads.
- Session.RunClient: the real loop has no bound and blocks in `stream.read` forever if the peer never closes. The model consumes a finite script and, when the script ends first, stops with exit `Reading` to stand for "still blocked in read". All trace properties hold for every such prefix, and `TraceOnlyGrows` relates prefixes to longer scripts.
- Session.RunClient: requires that no read reports more bytes than the buffer holds. That is the contract of Rust's `Read::read`, not a demand on callers.
- src/terminal.rs (terminal UI), src/sv.rs (one-shot listener) and src/test.rs: outside the session protocol.
