# UDP resource lookup server: the request processor

This project models the request processor of a small UDP lookup server. A
client sends a resource name as a raw datagram. The server answers with one
framed text block: `-BEGIN-\n<value>\n-END-` when the name is in its
name-to-value table, or `-ERROR-\n<explanation>\n-END-` otherwise.

`UdpSession::handle_request` classifies one receive completion. Its inputs
are an optional transport error, the byte count, the 1024-byte receive buffer
and the server's read-only table. The branches are tried in a fixed order and
the first that applies wins:

1. a transport error, whose message is sent back verbatim;
2. zero bytes received;
3. more than 64 bytes received;
4. a lookup of the first `n` buffer bytes, matched by exact equality;
5. on the lookup path only, a response over 1024 bytes is replaced by the
   info-size error.

Modules:

- `Wrappers` (wrappers.dfy): `Option`, used for the transport error.
- `Replies` (replies.dfy): the size limits, the fixed reply texts of
  `ServerReplies`, the framing `Format` and its partner `Unframe`. `Unframe`
  reads a response back into its kind and body. Round-trip lemmas are proved
  in both directions.
- `Session` (session.dfy): `get_error`, `get_info` and `handle_request` as
  pure functions (`GetError`, `GetInfo`, `Respond`). The session record is
  `UdpSession` and `HandleRequest` updates it. `ReceivedName` copies the
  received name out of the buffer with a loop, as line 31 does.
- `Properties` (properties.dfy): one lemma per branch, plus lemmas that
  relate several calls.

Strings model C++ `std::string`s with one `char` per byte. So `|s|` is the
byte count that `size()` returns, and the 14 bytes of framing mean the size
check fires exactly when a stored value is longer than 1010 bytes. The table
is passed in as an immutable `map`. `UdpServer::get_resources_info`
(server/udp_server.cpp:155-158) only hands out a const reference to it. So
the response is a function of its inputs, and a lookup cannot change the
table.

The code bounds the response at 1024 bytes only on the lookup path. A
transport error's message is framed and sent at whatever length it has.
`Session.Respond` therefore promises the bound only when there is no
transport error. The wire protocol is meant to keep every response within 1024 bytes; the
model follows the code, which does not do so for transport errors.

## Model

| member | source | states |
|---|---|---|
| Replies.Format | server/udp_server.cpp:47-59 | a framed response is its body plus 14 bytes of markers, so it fits in 1024 bytes exactly when the body is at most 1010 bytes |
| Replies.Unframe | server/udp_server.cpp:47-59 | reading a response back yields a body that is 14 bytes shorter, under the header of its kind |
| Replies.UnframeFormat | server/udp_server.cpp:47-59 | every framed reply reads back as the same kind and body |
| Replies.FormatUnframe | server/udp_server.cpp:47-59 | every string that reads as a reply is exactly that reply framed |
| Replies.FormatInjective | server/udp_server.cpp:47-59 | different replies never frame to the same response |
| Session.GetError | server/udp_server.cpp:56-63 | the error response reads back as an error carrying exactly the explanation, and is 14 bytes longer than it |
| Session.GetInfo | server/udp_server.cpp:41-54 | a name in the table yields a success response carrying its stored value; a missing name yields the "No such resource name" error |
| Session.Respond | server/udp_server.cpp:22-36 | every response is a well-formed frame; a transport error yields an error carrying its message; without a transport error the response is at most 1024 bytes |
| Session.HandleRequest | server/udp_server.cpp:22-38 | handling a request sets only the session's response text; its sender and received bytes are unchanged |
| Session.ReceivedName | server/udp_server.cpp:31 | the name looked up is exactly the first `n` bytes of the receive buffer |
| Properties.TransportErrorFirst | server/udp_server.cpp:24-25 | with a transport error the response is `-ERROR-\n` + the error's message + `\n-END-`, whatever the byte count, buffer or table |
| Properties.ZeroBytes | server/udp_server.cpp:26-27 | with no error and zero bytes the response is the "Received zero bytes." error |
| Properties.NameTooLong | server/udp_server.cpp:28-29 | with no error and more than 64 bytes the response is the name-size error, whatever the payload |
| Properties.TableNotConsulted | server/udp_server.cpp:24-29 | on the error, zero-byte and too-long paths, neither the table nor the buffer contents affect the response |
| Properties.LookupIsLocal | server/udp_server.cpp:30-33 | on the lookup path the response depends only on the first `n` bytes and on that name's table entry |
| Properties.Found | server/udp_server.cpp:46-47 | a stored value whose framed response fits is sent as `-BEGIN-\n` + value + `\n-END-` |
| Properties.NotFound | server/udp_server.cpp:49-50 | a name missing from the table gets exactly the "No such resource name" error |
| Properties.OversizeExactly | server/udp_server.cpp:33-35 | a found value is replaced by the "Resource info is more than 1024 bytes." error if and only if it is longer than 1010 bytes |
| Properties.SuccessMeansExactHit | server/udp_server.cpp:28-47 | a success response implies no error, 1 to 64 bytes, and an exact table hit on the first `n` bytes whose value is the one sent |
| Properties.ResponseForms | server/udp_server.cpp:22-36 | every response is a frame carrying a stored value, the transport error's message, or one of the four fixed explanations |
| Properties.DistinctValuesDistinctResponses | server/udp_server.cpp:41-48 | two lookups whose fitting stored values differ each get the success frame around their own value, so the two responses differ |

## Left out

- The fallback to the unframed "Internal server error." when `std::bad_alloc` is thrown (server/udp_server.cpp:51-52, 60-61). Allocation failure has no counterpart in this model.
- The hand-off to the sender (server/udp_server.cpp:38). Receive, dispatch, the strand-serialised send, the pending-send counter and `stop` (server/udp_server.cpp:80-153) are all about Asio concurrency and are not modelled.
- The transport error is an opaque `Option<string>`. Boost's `error_code` and how `message()` builds its text are not modelled.
- Session.Respond: the 1024-byte bound is stated only for the no-error case, because the code does not bound a transport error's message.
- The `bytes_received` field of `UdpSession` (server/udp_server.h:28) is never written by the request processor (the parameter of the same name shadows it), so the session record leaves it out. The remote endpoint is carried along as an opaque value.
- server/main.cpp (argument parsing, signal handling, JSON table loading, thread pool) and client/main.cpp (one blocking send and receive) are I/O and are not part of this model. A non-empty table (server/main.cpp:85) is never needed by any property.
- Exact responses are stated with the named reply constants (`ErrorHeader + ZeroBytesReceived + Trailer`, …). Each constant holds the source's literal text.
