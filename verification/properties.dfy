/**
  What the request processor promises its clients, one lemma per branch of
  `handle_request`, plus the facts that relate several calls: the table is
  read only at the received name, the response bound, and that a success
  response can only come from an exact hit in the table.
 */
module Properties {
  import opened Wrappers
  import opened Replies
  import opened Session

  /** Two tables agree on `name`: both lack it, or both map it to the same value. */
  predicate AgreeOn(t1: ResourceTable, t2: ResourceTable, name: string) {
    (name !in t1 && name !in t2) || (name in t1 && name in t2 && t1[name] == t2[name])
  }

  /** A transport error wins over every other input and its message is sent verbatim. */
  lemma TransportErrorFirst(err: Option<string>, buf: seq<char>, n: nat, table: ResourceTable)
    requires n <= |buf| <= RecvBufferSize
    requires err.Some?
    ensures Respond(err, buf, n, table) == ErrorHeader + err.value + Trailer
  {
  }

  /** An empty datagram without a transport error gets the zero-bytes error. */
  lemma ZeroBytes(buf: seq<char>, table: ResourceTable)
    requires |buf| <= RecvBufferSize
    ensures Respond(None, buf, 0, table) == ErrorHeader + ZeroBytesReceived + Trailer
  {
  }

  /** More than 64 bytes gets the name-size error, whatever the bytes are. */
  lemma NameTooLong(buf: seq<char>, n: nat, table: ResourceTable)
    requires n <= |buf| <= RecvBufferSize
    requires n > MaxResourceNameSize
    ensures Respond(None, buf, n, table) == ErrorHeader + ResourceNameSizeExceeds + Trailer
  {
  }

  /** Outside the lookup path neither the table nor the buffer contents matter. */
  lemma TableNotConsulted(err: Option<string>, buf1: seq<char>, buf2: seq<char>, n: nat, t1: ResourceTable, t2: ResourceTable)
    requires n <= |buf1| <= RecvBufferSize && n <= |buf2| <= RecvBufferSize
    requires err.Some? || n == 0 || n > MaxResourceNameSize
    ensures Respond(err, buf1, n, t1) == Respond(err, buf2, n, t2)
  {
  }

  /**
    On the lookup path the response depends on the received bytes only through
    the first `n` of them, and on the table only through that name's entry:
    bytes past `n` are ignored, and the lookup neither sees nor changes any
    other entry.
   */
  lemma LookupIsLocal(buf1: seq<char>, buf2: seq<char>, n: nat, t1: ResourceTable, t2: ResourceTable)
    requires n <= |buf1| <= RecvBufferSize && n <= |buf2| <= RecvBufferSize
    requires buf1[..n] == buf2[..n]
    requires AgreeOn(t1, t2, buf1[..n])
    ensures Respond(None, buf1, n, t1) == Respond(None, buf2, n, t2)
  {
  }

  /** A stored value whose framed response fits is sent as is, between the success markers. */
  lemma Found(buf: seq<char>, n: nat, table: ResourceTable)
    requires n <= |buf| <= RecvBufferSize
    requires 0 < n <= MaxResourceNameSize
    requires buf[..n] in table
    requires |BeginHeader + table[buf[..n]] + Trailer| <= MaxResponseSize
    ensures Respond(None, buf, n, table) == BeginHeader + table[buf[..n]] + Trailer
  {
  }

  /** A name missing from the table gets the no-such-resource error. */
  lemma NotFound(buf: seq<char>, n: nat, table: ResourceTable)
    requires n <= |buf| <= RecvBufferSize
    requires 0 < n <= MaxResourceNameSize
    requires buf[..n] !in table
    ensures Respond(None, buf, n, table) == ErrorHeader + NoValueError + Trailer
  {
  }

  /**
    A found value is replaced by the info-size error exactly when it is longer
    than 1010 characters, i.e. when its framed response would exceed 1024.
   */
  lemma OversizeExactly(buf: seq<char>, n: nat, table: ResourceTable)
    requires n <= |buf| <= RecvBufferSize
    requires 0 < n <= MaxResourceNameSize
    requires buf[..n] in table
    ensures Respond(None, buf, n, table) == ErrorHeader + ResourceInfoSizeExceeds + Trailer
        <==> |table[buf[..n]]| > MaxResponseSize - FramingOverhead
  {
  }

  /**
    A success response is only ever the value of an exact table hit on the
    first `n` received bytes: no trimming, no normalisation, no other key.
   */
  lemma SuccessMeansExactHit(err: Option<string>, buf: seq<char>, n: nat, table: ResourceTable, value: string)
    requires n <= |buf| <= RecvBufferSize
    requires Unframe(Respond(err, buf, n, table)) == Some(Reply(Info, value))
    ensures err.None? && 0 < n <= MaxResourceNameSize
    ensures buf[..n] in table && table[buf[..n]] == value
  {
  }

  /** The explanations an error response can carry without a transport error. */
  predicate ServerExplanation(e: string) {
    e == ZeroBytesReceived || e == ResourceNameSizeExceeds || e == NoValueError || e == ResourceInfoSizeExceeds
  }

  /**
    Every response is a well-formed frame: a value stored in the table, the
    transport error's own message, or one of the four fixed explanations.
   */
  lemma ResponseForms(err: Option<string>, buf: seq<char>, n: nat, table: ResourceTable)
    requires n <= |buf| <= RecvBufferSize
    ensures match Unframe(Respond(err, buf, n, table))
      case None => false
      case Some(r) =>
        (r.kind == Info ==> r.body in table.Values)
        && (r.kind == Error ==> (err.Some? && r.body == err.value) || (err.None? && ServerExplanation(r.body)))
  {
  }

  /**
    Sessions do not interfere: two requests for names with different stored
    values that fit get different responses, each carrying its own value.
   */
  lemma DistinctValuesDistinctResponses(buf1: seq<char>, n1: nat, buf2: seq<char>, n2: nat, table: ResourceTable)
    requires n1 <= |buf1| <= RecvBufferSize && n2 <= |buf2| <= RecvBufferSize
    requires 0 < n1 <= MaxResourceNameSize && 0 < n2 <= MaxResourceNameSize
    requires buf1[..n1] in table && buf2[..n2] in table
    requires |table[buf1[..n1]]| <= MaxResponseSize - FramingOverhead
    requires |table[buf2[..n2]]| <= MaxResponseSize - FramingOverhead
    requires table[buf1[..n1]] != table[buf2[..n2]]
    ensures Respond(None, buf1, n1, table) == BeginHeader + table[buf1[..n1]] + Trailer
    ensures Respond(None, buf2, n2, table) == BeginHeader + table[buf2[..n2]] + Trailer
    ensures Respond(None, buf1, n1, table) != Respond(None, buf2, n2, table)
  {
  }
}
