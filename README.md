# reflex-mock: echo benchmark client and mock echo server

This project models the two pieces of logic in the reflex-mock repository
that can be stated without its network plumbing, and proves properties of
them in Dafny 4.11.

- **The benchmark client** (`mock-client/src/main.rs`). The program refuses a
  payload longer than 4096 bytes. Otherwise it spawns `number` tasks. Each
  task holds one connection and loops: it writes the payload, reads a
  response, and counts both in a `Count { inb, outb }` record. The loop ends
  on a write error, on a read error other than `WouldBlock`, or when the
  test duration has passed after a successful read. Each task sends its
  count over a channel. The driver adds up `number` received counts and
  prints requests/sec, Mbps and responses/sec using truncating `u64`
  division.
- **The mock echo server's connection handler** (`echo_server` in
  `mock/src/lib.rs`). It reads into a zero-filled 4096-byte buffer. A 0-byte
  read ends the handler. Otherwise it writes back the first `resp` bytes of
  the buffer, where `resp` is 1048 for a 24-byte read, 24 for a 1048-byte
  read, and the number of bytes read for any other read.

Files:

- `options.dfy` (module `Options`): the `Option` type for channel receives.
- `mock_client.dfy` (module `MockClient`): the task loop, the merge, the
  rates and the driver.
- `echo_server.dfy` (module `EchoServer`): the response-length rule and the
  per-connection loop.

I/O is replaced by inputs:

- A task gets a sequence of `Round`s. Each round holds the result of
  `write_all`, the result of `read` (`ReadOk(n)`, `WouldBlock` or `ReadErr`)
  and the elapsed time, in nanoseconds, that the deadline check sees. The
  limit it is compared against is `duration * 1_000_000_000`, as
  `Duration::from_secs` gives.
- A supplied sequence is finite. A task that has not stopped when its rounds
  run out ends with exit `Running` and sends nothing.
- A task's connect either panics (`ConnectFailed`) or gives its rounds.
- The driver gets the order in which the task messages arrive, as a
  permutation of the task indices.
- The echo handler gets a sequence of inbound events. Each is the bytes one
  `read` returned plus whether writing the reply succeeded, or a read
  failure. A read never returns more bytes than the buffer holds.

Points about the code that the model keeps:

- **A failed connect.** `socket.connect(address).await.unwrap()` panics
  inside the task, so that task never sends. `main` keeps its own `tx`
  alive while it receives, so `rx.recv()` never returns `None`, and `main`
  waits for the missing message forever. `Benchmark` reports this as
  `Waiting`. The `None => Count { inb: 0, outb: 0 }` arm is still modelled
  (`Received`, `TotalIgnoresNone`), but the driver never reaches it.
- **WouldBlock.** `continue` goes back to the write, so every would-block
  read counts another request and no response.
- **Counters.** The code counts only `inb`/`outb`. It keeps no byte totals,
  no samples, no latencies and no mismatch warning.
- **Mbps** is computed from the already truncated requests/sec:
  `outb / duration * length / 1024 / 128`.
- **Stale reply bytes.** The echo reply is `buf[0..resp]`, so a reply longer
  than its read (1048 bytes for a 24-byte read) carries bytes left in the
  buffer by earlier reads, or zeros on a fresh connection.

## Model

| member | source | states |
|---|---|---|
| `MockClient.Loop` | mock-client/src/main.rs:137-161 | the loop consumes at least one more round exactly when rounds remain, and never more than the trace holds |
| `MockClient.LoopStops` | mock-client/src/main.rs:137-161 | every consumed round but the last was a successful write followed by a would-block read or by a read (any byte count) no later than the deadline; the last one causes the exit: a write error, a read error, or a successful read past the deadline; exit `Running` exactly when every round proceeded |
| `MockClient.LoopCounts` | mock-client/src/main.rs:138-155 | `outb` grows by the number of successful writes consumed, `inb` by the number of successful reads; `outb - inb` grows by the would-block reads plus one if the loop ended on a read error |
| `MockClient.TaskBalance` | mock-client/src/main.rs:146-160 | for a task from a zero count: `inb <= outb`, and `outb - inb` equals the would-block reads plus one for a final read error |
| `MockClient.DeadlineExceeded` | mock-client/src/main.rs:156-160 | a loop that ends at the deadline ended on a successful write and read whose elapsed time exceeded the test duration |
| `MockClient.ZeroByteReadContinues` | mock-client/src/main.rs:146-147 | a 0-byte read before the deadline does not end the loop (that it is counted as a response is part of `LoopCounts`) |
| `MockClient.WouldBlockRetries` | mock-client/src/main.rs:148-150 | a would-block read never ends the loop, whatever the elapsed time; the next round starts with a write |
| `MockClient.Task` | mock-client/src/main.rs:127-161 | the task loop started from `Count { inb: 0, outb: 0 }`; no contract of its own: its exits and counts are stated by `LoopStops`, `LoopCounts`, `TaskBalance`, `DeadlineExceeded`, `ZeroByteReadContinues` and `WouldBlockRetries` |
| `MockClient.RunTask` | mock-client/src/main.rs:127-161 | the task loop, with `continue` and `break` as in the source and the payload slice `out_buf[0..length]` of the zero-filled 4096-byte buffer in bounds given `length <= 4096`, computes exactly the count, exit and consumed rounds of `Task` |
| `MockClient.Received` | mock-client/src/main.rs:175-178 | the `Some(c) => c`, `None => Count { inb: 0, outb: 0 }` arm; no contract of its own: `TotalIgnoresNone` states that a `None` adds nothing |
| `MockClient.Total` | mock-client/src/main.rs:173-181 | the merge fold in arrival order; no contract of its own: `Merge` is proved equal to it, and `TotalConcat`, `TotalIgnoresNone` and `TotalPermutation` state its properties |
| `MockClient.Merge` | mock-client/src/main.rs:173-181 | the merge loop's counts are `Total` of the received messages, with `None` read as a zero count |
| `MockClient.TotalConcat` | mock-client/src/main.rs:173-181 | the total of two batches of messages is the sum of their totals |
| `MockClient.TotalIgnoresNone` | mock-client/src/main.rs:175-178 | a `None` message adds nothing to the totals |
| `MockClient.TotalPermutation` | mock-client/src/main.rs:173-181 | any two arrival orders of the same messages give the same totals |
| `MockClient.PickPermutation` | mock-client/src/main.rs:174-175 | permuting the arrival order permutes the received messages |
| `MockClient.Rates` | mock-client/src/main.rs:189-194 | requests/sec and responses/sec are `outb` and `inb` divided by the duration, rounded down; Mbps is requests/sec times length divided by 131072 (1024 then 128), rounded down; a zero duration is excluded because the division panics |
| `MockClient.MbpsBound` | mock-client/src/main.rs:192-193 | because it starts from truncated requests/sec, Mbps times `duration * 131072` never exceeds `outb * length` |
| `MockClient.Benchmark` | mock-client/src/main.rs:96-194 | a length over 4096 is rejected with no task spawned; otherwise all tasks are spawned, the driver waits forever unless every task sends, and then the totals are `Total` of the task counts in spawn order, whatever the arrival order; the rates follow, and a zero duration panics at the division |
| `EchoServer.Respond` | mock/src/lib.rs:26-31 | a read length maps to closing exactly when it is 0; a reply length is positive and fits the 4096-byte buffer when the read did |
| `EchoServer.RespondCases` | mock/src/lib.rs:28-30 | 24 bytes read give a 1048-byte reply, 1048 give 24, and every other non-zero length is echoed |
| `EchoServer.RespondInvolution` | mock/src/lib.rs:26-31 | applying the length rule twice to a non-zero length returns it |
| `EchoServer.Serve` | mock/src/lib.rs:20-37 | the per-connection handler as a function of the inbound events; no contract of its own: `Handle` is proved equal to it, and `ServeStops`, `ServeReplies`, `ReplyFromBuffer`, `EchoesData` and `ServeReplySizes` state its properties |
| `EchoServer.ServeStops` | mock/src/lib.rs:20-37 | one reply per non-empty read whose reply was written, up to the first event that stops the handler and none after it; a 0-byte read ends it as closed by the peer, a failed read or write as a panic |
| `EchoServer.ServeReplies` | mock/src/lib.rs:17-34 | each reply has the length the rule gives for its read; a reply no longer than the read is a prefix of the bytes read, and a longer one starts with them |
| `EchoServer.ReplyFromBuffer` | mock/src/lib.rs:17-34 | each reply is the first `resp` bytes of the buffer just after its read: the buffer as earlier reads left it, with the new bytes stored at its front |
| `EchoServer.StaleTailOnFreshBuffer` | mock/src/lib.rs:17-34 | on a fresh connection a first 24-byte read is answered with those 24 bytes followed by 1024 zero bytes |
| `EchoServer.EchoesData` | mock/src/lib.rs:30-34 | the reply to a read of any length other than 24 or 1048 is exactly the bytes read |
| `EchoServer.ReplySizes` | mock/src/lib.rs:20-37 | the mapping from read sizes to reply sizes, stopping at the first 0; no contract of its own: `ReplySizesOnePerRead` and `ServeReplySizes` state its properties |
| `EchoServer.ReplySizesOnePerRead` | mock/src/lib.rs:20-37 | over a sequence of read lengths there is exactly one reply length per read before the first 0, each given by the rule |
| `EchoServer.ServeReplySizes` | mock/src/lib.rs:20-37 | when no read or write fails, the handler's reply lengths are exactly the reply lengths of its read lengths |
| `EchoServer.Handle` | mock/src/lib.rs:16-37 | the handler loop over a zero-filled 4096-byte array, with the reply slice `buf[0..resp]` in bounds, computes exactly the replies and end of `Serve` |

## Left out

- TCP sockets: `TcpSocket`, `TcpListener`, connect, bind, accept, `write_all` and `read`. They are network I/O, so their outcomes are inputs. The accept loop of `echo_server` and its `?` errors on bind and accept are not modelled. The contents of `in_buf` in the client are never used, so that buffer is not modelled.
- `tokio::spawn` and the `mpsc` channel are concurrency. The tasks run one after another, and the channel is replaced by the arrival order. The capacity of 32 is not modelled. A failed `tx.send` cannot happen, because `main` keeps the receiver until it has every message.
- `Instant` and `Duration` are the wall clock. They are replaced by the elapsed times in the rounds. These times are not required to increase.
- getopts parsing, the defaults, the usage text and the `unwrap()` of the address parse are CLI glue. The model starts from the parsed `length`, `duration` and task count.
- The `println!` report lines are not modelled. Their values are the outcome's totals and `Speed`.
- `hello_ec2`, `pressure_ec2` and `pressure_multi_ec2` only connect or print. `serverless-client/src/main.rs` is a Lambda wrapper around `hello_ec2` with no logic of its own.
- MockClient.RunTask: `inb` and `outb` are unbounded naturals. The `u64` overflow of `+= 1`, and of the sums in the merge loop, is not modelled, because 2^64 requests cannot happen in one run.
- MockClient.Rates: the `u64` product of requests/sec and `length` is not modelled as wrapping. It overflows only at or above 2^52 requests per second (for a 4096-byte payload).
- EchoServer.Handle: a failed `write_all` counts as a reply not delivered, even though part of it may already have been sent. A failed read or write panics the handler task (`expect`), which is modelled as the end `ReadPanic` or `WritePanic`.
