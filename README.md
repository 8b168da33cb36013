# broadnym relay — Dafny model

broadnym lets a user hand a raw Bitcoin transaction to a relay through the
Nym mixnet. The relay broadcasts it through the mempool.space API. This
project models the relay's protocol core and proves properties of it.

- **Wire** (`wire.dfy`, from `common/src/lib.rs`): the `Network` enumeration
  and the mempool.space API base that each network selects. Also the
  `TransactionRequest` envelope.
- **Utf8** (`utf8.dfy`): the UTF-8 encoding Rust uses for `String`. It is
  strict: overlong forms, surrogates and anything above U+10FFFF are
  rejected, as `String::from_utf8` does. Decoding is proved to invert
  encoding in both directions.
- **Bincode** (`bincode.dfy`): the envelope's binary layout under bincode
  1.x's top-level `serialize`/`deserialize`. Integers are fixed-width
  little-endian and trailing bytes are allowed. The layout is a u64 byte
  length of `tx_hex`, then its UTF-8 bytes, then a u32 variant index
  (`Mainnet` = 0, `Testnet` = 1, in declaration order). `Decode` returns a
  `Result` and never a partial request. It accepts a request exactly when
  the input begins with that request's encoding.
- **Relay** (`relay.dfy`, from `server/src/main.rs`):
  - the `AppState` address cell;
  - `index_handler`'s choice of page;
  - `handle_request`, as a function of the message bytes and the broadcast
    endpoint's answer;
  - `run_nym_service`, as a method. It writes the cell once and then loops
    over the client's inbound stream until the stream ends. It records what
    it does as a trace of events.
- **Wrappers** (`wrappers.dfy`): `Option` and `Result`.

Stand-ins for code outside the model:
- The mixnet client is a `MixnetClient` object. It holds its address and the
  messages its stream will still yield.
- The broadcast endpoint is an `HttpOutcome` carried with each inbound
  message: no response, a response whose body could not be read, or a status
  with a body.
- Setting up the mixnet client can fail (storage directory, builder,
  connecting). The outcome of that setup is the `setupError` parameter of
  `RunNymService`.

## Model

| member | source | states |
|---|---|---|
| `Wire.MempoolApiUrl` | common/src/lib.rs:15-21 | Mainnet maps to exactly `https://mempool.space/api` and Testnet to exactly `https://mempool.space/testnet/api`. Each URL is produced only by its own network (both directions of the iff). |
| `Wire.ApiUrlSelectsNetwork` | common/src/lib.rs:17-20 | every base URL is non-empty and starts with the mempool.space origin; two networks get the same URL exactly when they are the same network |
| `Bincode.VariantIndex` | common/src/lib.rs:4-7 | the discriminant is below 2 and is 0 exactly for Mainnet (declaration order) |
| `Bincode.NetworkOfIndex` | common/src/lib.rs:4-7 | a discriminant names a variant exactly when it is 0 or 1, and the variant it names has that discriminant |
| `Bincode.Encode` | common/src/lib.rs:3-13 | the encoding is a u64 little-endian byte length of `tx_hex`, then exactly the UTF-8 bytes of `tx_hex`, then the u32 little-endian variant index of the network. Its total length is 12 plus the text's byte length. |
| `Bincode.Decode` | server/src/main.rs:170 | input shorter than the encoding of an empty request is rejected with an error |
| `Bincode.DecodeEncode` | common/src/lib.rs:9-13 | decoding the encoding of any request, followed by any trailing bytes, returns an equal request |
| `Bincode.DecodeSound` | common/src/lib.rs:9-13 | whatever `Decode` accepts begins with the full encoding of the request it returns, so nothing partial is ever produced |
| `Bincode.DecodeExactly` | server/src/main.rs:170 | `Decode(bs) == Ok(req)` holds iff `bs` starts with `Encode(req)` |
| `Bincode.TruncatedRejected` | common/src/lib.rs:9-13 | every proper prefix of an encoding decodes to an error |
| `Utf8.DecodeEncode` | common/src/lib.rs:11 | the UTF-8 bytes of any `tx_hex` string decode back to that string |
| `Utf8.EncodeDecode` | common/src/lib.rs:11 | bytes accepted as UTF-8 are exactly the encoding of the decoded string, so each string has one encoding |
| `Relay.BroadcastTarget` | server/src/main.rs:174-179 | the POST carries `tx_hex` unchanged as a `text/plain` body; two requests are posted to the same URL exactly when they name the same network |
| `Relay.BroadcastRequest` | server/src/main.rs:174-179 | the POST goes to the request's network API base followed by exactly `/tx`, with content type `text/plain` and the transaction hex unchanged as its body |
| `Relay.HandleRequest` | server/src/main.rs:169-193 | a decode failure gives `Err(Malformed)` and makes no POST. A decoded request is posted as `BroadcastRequest`. The result is `Ok` iff the endpoint answered 2xx, and that `Ok` holds the UTF-8 bytes of `"Success: "` followed by the body. A non-2xx answer gives `Err` with the status and body. |
| `Relay.HandleEncodedRequest` | server/src/main.rs:170-181 | a message that is the encoding of a request (plus any trailing bytes) is posted to that network's base URL followed by `/tx`, with the hex as the body. It succeeds exactly on a 2xx answer. |
| `Relay.AppState.constructor` | server/src/main.rs:33-35 | the published address starts as `None` and has never been written |
| `Relay.AppState.Publish` | server/src/main.rs:141-144 | after the write the cell holds exactly the given address; the write count goes up by one |
| `Relay.IndexHandler` | server/src/main.rs:59-106 | the address page is served iff an address is published, and it embeds that address verbatim; otherwise the starting-up page is served |
| `Relay.MixnetClient.Next` | server/src/main.rs:147 | yields the stream's next message and consumes it, or `None` once the stream is exhausted |
| `Relay.ProcessPacket` | server/src/main.rs:148-157 | one packet is handled and its outcome logged, success or error; the event recorded is that packet's `HandledEvent` either way |
| `Relay.ServiceTraceShape` | server/src/main.rs:138-166 | the address is published once, as the first event. Every inbound message gets exactly one handled event, in arrival order. The connection-closed event comes last and only there. |
| `Relay.FailureDoesNotStopRelay` | server/src/main.rs:150-156 | after a message whose handling failed, a well-formed request that follows it is still posted to its network |
| `Relay.RunNymService` | server/src/main.rs:108-167 | A setup failure returns that error, publishes nothing and changes nothing. Otherwise the cell holds the client's own address, written exactly once, and it holds it throughout the loop (a loop invariant). The stream is drained, the result is `Ok(())`, and the events are exactly `ServiceTrace(address, inbound)`. |
| `Relay.ServeStatus` | server/src/main.rs:33-43 | a fresh server shows the starting-up page. After the service task has run, it shows the client's address, or still shows starting-up if setup failed. |

## Left out

- The Nym mixnet client (storage directories, builder, gateway connection, packet routing; server/src/main.rs:112-136) is foreign networking code. Only its address, its inbound stream and whether setup failed are modelled.
- reqwest is not modelled (server/src/main.rs:173-184). The answer to each POST is an abstract `HttpOutcome`. A status is any integer, and success means 200-299, as `StatusCode::is_success` defines it.
- The `anyhow` error texts (such as `"Submission failed: {status} - {body}"`) are not modelled. Errors are the structured `HandleError` and `DecodeError` values carrying the same status, body and cause.
- The tokio `RwLock` and the concurrency between the web server and the service task are not modelled. The cell is a plain field written under a sequential model. `ServeStatus` observes the status page only before and after the service has run, not while it runs.
- `tokio::spawn` of the service task (server/src/main.rs:39-43) is task scheduling, and axum routing, the TCP listener and `axum::serve` (server/src/main.rs:45-54) are I/O. None of them is modelled.
- clap argument parsing (`Args::parse()`, server/src/main.rs:13-22, 31) is configuration and is not modelled. A bad command line ends the process inside `main`, before the service task is spawned, so it never reaches `RunNymService`.
- `ProjectDirs`/`create_dir_all` (server/src/main.rs:112-123) are filesystem. Their failures, and the client builder's and connection's (server/src/main.rs:124-136), are the `setupError` parameter.
- The HTML markup and styling of the two status pages are not modelled. Only which page is served and the address it embeds are.
- `tracing` calls are not modelled as text. The outcome-bearing log lines are `Event`s: request processed, request error, connection closed. The purely informational lines are not.
- bincode internals beyond the layout are not modelled: size limits, the u64-to-usize cast, and error messages. `Bincode.Encode` requires that the text's byte length fit the u64 length prefix, which every Rust `String` satisfies.
- client/src/main.rs renders a placeholder page only. It has no session, validation or send logic, so there is no client side to model.
- `bincode::deserialize` ignores bytes after the envelope (server/src/main.rs:170), so `Bincode.DecodeEncode` and `Bincode.DecodeExactly` state the round trip with arbitrary trailing bytes.
- A broadcast POST that never answers is not modelled. Every `HttpOutcome` is an answer, but the code sets no timeout on the POST (server/src/main.rs:176-184), so a silent endpoint would stall the receive loop for good.
- A stream that never ends is not modelled. `MixnetClient.pending` is a finite sequence, so every run of `RunNymService` reaches the end of the stream. The real stream can stay open forever.

