/**
  The request processor of `UdpSession` (server/udp_server.cpp:22-63): it
  classifies one receive completion and builds the response the server sends
  back. The resource table is the server's read-only name-to-value map
  (`UdpServer::get_resources_info`), passed in as a value.
 */
module Session {
  import opened Wrappers
  import opened Replies

  /** The server's name-to-value table; it is only ever read. */
  type ResourceTable = map<string, string>

  /** `UdpSession::get_error`: frames an explanation as an error response. */
  function GetError(explanation: string): (response: string)
    ensures Unframe(response) == Some(Reply(Error, explanation))
    ensures |response| == |explanation| + FramingOverhead
  {
    UnframeFormat(Reply(Error, explanation));
    Format(Reply(Error, explanation))
  }

  /** `UdpSession::get_info`: looks `name` up by exact equality and frames the outcome. */
  function GetInfo(name: string, table: ResourceTable): (response: string)
    ensures name in table ==> Unframe(response) == Some(Reply(Info, table[name]))
    ensures name !in table ==> Unframe(response) == Some(Reply(Error, NoValueError))
  {
    if name in table then
      UnframeFormat(Reply(Info, table[name]));
      Format(Reply(Info, table[name]))
    else
      GetError(NoValueError)
  }

  /**
    `UdpSession::handle_request` up to the hand-off to the sender: `err` is the
    transport error of the receive, if any, `buf` the receive buffer and `n`
    the byte count the receive reported. Branches are tried in the source's
    order and the first that applies decides the response.
   */
  function Respond(err: Option<string>, buf: seq<char>, n: nat, table: ResourceTable): (response: string)
    requires n <= |buf| <= RecvBufferSize
    ensures Unframe(response).Some?
    ensures err.Some? ==> Unframe(response) == Some(Reply(Error, err.value))
    ensures err.None? ==> |response| <= MaxResponseSize
  {
    if err.Some? then GetError(err.value)
    else if n == 0 then GetError(ZeroBytesReceived)
    else if n > MaxResourceNameSize then GetError(ResourceNameSizeExceeds)
    else
      var message := GetInfo(buf[..n], table);
      if |message| > MaxResponseSize then GetError(ResourceInfoSizeExceeds) else message
  }

  /** The sender's address; the model only carries it along. */
  datatype Endpoint = Endpoint(address: seq<int>, port: nat)

  /** The fixed 1024-byte receive array of a session. */
  type RecvBuffer = b: seq<char> | |b| == RecvBufferSize witness seq(RecvBufferSize, _ => '\0')

  /** The state of one in-flight request: sender, received bytes and response text. */
  datatype UdpSession = UdpSession(remote: Endpoint, recvBuffer: RecvBuffer, message: string)

  /**
    `handle_request` as a step of the session: it sets the response text and
    leaves the sender and the received bytes as they were.
   */
  function HandleRequest(session: UdpSession, err: Option<string>, bytesReceived: nat, table: ResourceTable): (handled: UdpSession)
    requires bytesReceived <= RecvBufferSize
    ensures handled.remote == session.remote
    ensures handled.recvBuffer == session.recvBuffer
    ensures handled.message == Respond(err, session.recvBuffer, bytesReceived, table)
    ensures err.None? ==> |handled.message| <= MaxResponseSize
  {
    session.(message := Respond(err, session.recvBuffer, bytesReceived, table))
  }

  /** Line 31: the name is a copy of the first `n` bytes of the receive buffer. */
  method ReceivedName(buf: seq<char>, n: nat) returns (name: string)
    requires n <= |buf|
    ensures name == buf[..n]
  {
    name := [];
    var i := 0;
    while i < n
      invariant i <= n
      invariant name == buf[..i]
    {
      name := name + [buf[i]];
      i := i + 1;
    }
  }
}
