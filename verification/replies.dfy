/**
  The server's size limits, its fixed reply texts, and the response framing
  `-BEGIN-\n<value>\n-END-` / `-ERROR-\n<explanation>\n-END-`
  (server/udp_server.cpp).

  Strings stand for the C++ `std::string`s of the server: every `char` is one
  byte of the datagram, so `|s|` is the byte count `size()` reports.
 */
module Replies {
  import opened Wrappers

  /** Longest resource name the server looks up (`MaxResourceNameSize`). */
  const MaxResourceNameSize: nat := 64
  /** Longest response the lookup path may send (`MaxResponseSize`). */
  const MaxResponseSize: nat := 1024
  /** Size of the session's receive buffer (`m_recv_buffer`). */
  const RecvBufferSize: nat := 1024

  // The fixed explanations of namespace ServerReplies.
  const ZeroBytesReceived: string := "Received zero bytes."
  const NoValueError: string := "No such resource name"
  const ResourceNameSizeExceeds: string := "Received resource name size is more than 64 bytes."
  const ResourceInfoSizeExceeds: string := "Resource info is more than 1024 bytes."

  /** The two kinds of framed response. */
  datatype Kind = Info | Error

  /** A response before framing: its kind and the text between the markers. */
  datatype Reply = Reply(kind: Kind, body: string)

  const BeginHeader: string := "-BEGIN-\n"
  const ErrorHeader: string := "-ERROR-\n"
  const Trailer: string := "\n-END-"

  /** Characters the framing adds around the body (14). */
  const FramingOverhead: nat := |BeginHeader| + |Trailer|

  function Header(k: Kind): (h: string)
    ensures |h| == |BeginHeader| == |ErrorHeader|
  {
    match k
    case Info => BeginHeader
    case Error => ErrorHeader
  }

  /** The `std::format("-BEGIN-\n{}\n-END-", …)` / `("-ERROR-\n{}\n-END-", …)` calls. */
  function Format(r: Reply): (s: string)
    ensures |s| == |r.body| + FramingOverhead
    ensures |s| <= MaxResponseSize <==> |r.body| <= MaxResponseSize - FramingOverhead
  {
    Header(r.kind) + r.body + Trailer
  }

  /**
    Reads a framed response back into its kind and body: the partner of
    `Format`, as a reader of the wire format sees it.
   */
  function Unframe(s: string): (o: Option<Reply>)
    ensures o.Some? ==> |s| == |o.value.body| + FramingOverhead
    ensures o.Some? ==> s[..|BeginHeader|] == Header(o.value.kind)
  {
    if |s| < FramingOverhead || s[|s| - |Trailer|..] != Trailer then None
    else
      var body := s[|BeginHeader|..|s| - |Trailer|];
      if s[..|BeginHeader|] == BeginHeader then Some(Reply(Info, body))
      else if s[..|ErrorHeader|] == ErrorHeader then Some(Reply(Error, body))
      else None
  }

  /** Every formatted reply reads back as itself. */
  lemma {:induction false} UnframeFormat(r: Reply)
    ensures Unframe(Format(r)) == Some(r)
  {
    var s := Format(r);
    var h := Header(r.kind);
    assert s[..|h|] == h;
    assert s[|s| - |Trailer|..] == Trailer;
    assert s[|h|..|s| - |Trailer|] == r.body;
  }

  /** Every string that reads as a reply is exactly that reply formatted. */
  lemma FormatUnframe(s: string)
    requires Unframe(s).Some?
    ensures Format(Unframe(s).value) == s
  {
  }

  /** Formatting loses nothing: different replies never share a response. */
  lemma FormatInjective(r1: Reply, r2: Reply)
    requires r1 != r2
    ensures Format(r1) != Format(r2)
  {
    UnframeFormat(r1);
    UnframeFormat(r2);
  }
}
