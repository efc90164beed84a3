/**
 * The two connection handlers of `TunnelServer`, one step at a time.
 *
 * `handle_tunnel` answers a registering tunnel client, enters it in the
 * registry with two fresh queues, and then relays: it takes a request from
 * the tunnel's send queue, writes it to the tunnel connection, frames the
 * tunnel's reply and puts it on the receive queue. `handle_client` polls the
 * registry a bounded number of times, answers 503 when no tunnel turned up,
 * and otherwise puts the client's bytes on the send queue of the selected
 * tunnel and later writes back whatever that tunnel's receive queue yields.
 *
 * Bytes written to a socket are out-parameters; bytes read from the tunnel
 * connection are a sequence of chunks; registrations made by other threads
 * while the client sleeps between polls are a parameter `arrivals`.
 */
module Relay {
  import opened Options
  import opened ByteStrings
  import opened HttpFraming
  import opened Channels
  import opened Registry

  // ---------------------------------------------------------------------------
  // Fixed replies
  // ---------------------------------------------------------------------------

  const RegisteredStatus: Bytes := Ascii("HTTP/1.1 200 OK")
  const PlainTextType: Bytes := Ascii("Content-Type: text/plain")
  const KeepAlive: Bytes := Ascii("Connection: keep-alive")
  const RegisteredBody: Bytes := Ascii("Tunnel registered\n")

  /** The reply to a registering tunnel client. */
  const RegisteredReply: Bytes :=
    RegisteredStatus + CRLF + PlainTextType + CRLF + KeepAlive + CRLF + CRLF + RegisteredBody

  const UnavailableStatus: Bytes := Ascii("HTTP/1.1 503 Service Unavailable")
  const DeclaredEighteen: Bytes := ContentLengthName + Ascii(" 18")
  const CloseConnection: Bytes := Ascii("Connection: close")
  const UnavailableBody: Bytes := Ascii("No tunnel is open")

  /** The reply to a client for whom no tunnel turned up. */
  const ServiceUnavailable: Bytes :=
    UnavailableStatus + CRLF + PlainTextType + CRLF + DeclaredEighteen + CRLF
    + CloseConnection + CRLF + CRLF + UnavailableBody

  const RegisteredLines: seq<Bytes> := [RegisteredStatus, PlainTextType, KeepAlive]
  const UnavailableLines: seq<Bytes> := [UnavailableStatus, PlainTextType, DeclaredEighteen, CloseConnection]

  lemma JoinThree(a: Bytes, b: Bytes, c: Bytes, d: Bytes)
    ensures Join([a, b, c], d) == a + d + b + d + c
  {
    assert [a, b, c][1..] == [b, c];
    assert [b, c][1..] == [c];
    assert Join([b, c], d) == b + d + c;
    assert a + d + (b + d + c) == a + d + b + d + c;
  }

  lemma JoinFour(a: Bytes, b: Bytes, c: Bytes, e: Bytes, d: Bytes)
    ensures Join([a, b, c, e], d) == a + d + b + d + c + d + e
  {
    assert [a, b, c, e][1..] == [b, c, e];
    JoinThree(b, c, e, d);
    assert a + d + (b + d + c + d + e) == a + d + b + d + c + d + e;
  }

  lemma ThreeLinesWithoutField(a: Bytes, b: Bytes, c: Bytes)
    requires PlainLine(a) && PlainLine(b) && PlainLine(c)
    requires !Contains(a, ContentLengthName) && !Contains(b, ContentLengthName) && !Contains(c, ContentLengthName)
    ensures PlainLines([a, b, c]) && LengthField([a, b, c]) == None
  {
    NoFieldNoLength([a, b, c]);
  }

  lemma ThirdOfFourLinesDeclares(a: Bytes, b: Bytes, c: Bytes, e: Bytes)
    requires PlainLine(a) && PlainLine(b) && PlainLine(c) && PlainLine(e)
    requires !Contains(a, ContentLengthName) && !Contains(b, ContentLengthName) && Contains(c, ContentLengthName)
    ensures PlainLines([a, b, c, e]) && LengthField([a, b, c, e]) == FieldValue(c)
  {
    var lines := [a, b, c, e];
    assert lines[0] == a && lines[1] == b && lines[2] == c && lines[3] == e;
    FirstFieldDecides(lines, 2);
  }

  lemma SeparatorIsTwoLineEnds()
    ensures Separator == CRLF + CRLF
  {
  }

  /**
   * `MessageParts` for a message given by name. It adds nothing to
   * `MessageParts`: it only lets the proofs about the reply constants name the
   * message without unfolding its literal, which keeps them cheap.
   */
  lemma MessageIs(lines: seq<Bytes>, body: Bytes, msg: Bytes)
    requires PlainLines(lines) && msg == Join(lines, CRLF) + Separator + body
    ensures HeaderComplete(msg) && Headers(msg) == Join(lines, CRLF) && Body(msg) == body
    ensures ContentLength(Headers(msg)) == LengthField(lines)
  {
    MessageParts(lines, body);
  }

  lemma RegisteredReplyJoined()
    ensures RegisteredReply == Join(RegisteredLines, CRLF) + Separator + RegisteredBody
  {
    JoinThree(RegisteredStatus, PlainTextType, KeepAlive, CRLF);
    SeparatorIsTwoLineEnds();
  }

  lemma PlainTextTypeHasNoLength()
    ensures PlainLine(PlainTextType) && !Contains(PlainTextType, ContentLengthName)
  {
    assert forall i :: 0 <= i < |PlainTextType| ==> PlainTextType[i] != 13;
    assert forall i :: 14 <= i < |PlainTextType| ==> PlainTextType[i] != 58;
    PlainLineWithoutName(PlainTextType);
  }

  lemma RegisteredStatusHasNoLength()
    ensures PlainLine(RegisteredStatus) && !Contains(RegisteredStatus, ContentLengthName)
  {
    assert forall i :: 0 <= i < |RegisteredStatus| ==> RegisteredStatus[i] != 13;
    assert forall i :: 14 <= i < |RegisteredStatus| ==> RegisteredStatus[i] != 58;
    PlainLineWithoutName(RegisteredStatus);
  }

  lemma KeepAliveHasNoLength()
    ensures PlainLine(KeepAlive) && !Contains(KeepAlive, ContentLengthName)
  {
    assert forall i :: 0 <= i < |KeepAlive| ==> KeepAlive[i] != 13;
    assert forall i :: 14 <= i < |KeepAlive| ==> KeepAlive[i] != 58;
    PlainLineWithoutName(KeepAlive);
  }

  lemma RegisteredLinesPlain()
    ensures PlainLines(RegisteredLines) && LengthField(RegisteredLines) == None
  {
    RegisteredStatusHasNoLength();
    PlainTextTypeHasNoLength();
    KeepAliveHasNoLength();
    ThreeLinesWithoutField(RegisteredStatus, PlainTextType, KeepAlive);
  }

  /**
   * The registration reply splits into its three header lines and its body
   * and declares no length, so a reader that honours `Content-Length`
   * delimits it only by the close of the connection.
   */
  lemma RegisteredReplyShape()
    ensures HeaderComplete(RegisteredReply)
    ensures Headers(RegisteredReply) == Join(RegisteredLines, CRLF)
    ensures Body(RegisteredReply) == RegisteredBody
    ensures ContentLength(Headers(RegisteredReply)) == None
  {
    RegisteredLinesPlain();
    RegisteredReplyJoined();
    MessageIs(RegisteredLines, RegisteredBody, RegisteredReply);
  }

  lemma UnavailableStatusHasNoLength()
    ensures PlainLine(UnavailableStatus) && !Contains(UnavailableStatus, ContentLengthName)
  {
    assert forall i :: 0 <= i < |UnavailableStatus| ==> UnavailableStatus[i] != 13;
    assert forall i :: 14 <= i < |UnavailableStatus| ==> UnavailableStatus[i] != 58;
    PlainLineWithoutName(UnavailableStatus);
  }

  lemma CloseConnectionHasNoLength()
    ensures PlainLine(CloseConnection) && !Contains(CloseConnection, ContentLengthName)
  {
    assert forall i :: 0 <= i < |CloseConnection| ==> CloseConnection[i] != 13;
    assert forall i :: 14 <= i < |CloseConnection| ==> CloseConnection[i] != 58;
    PlainLineWithoutName(CloseConnection);
  }

  lemma StripEighteen()
    ensures ParseInt(Strip(Ascii(" 18"))) == Some(18)
  {
    StripPadded([32], Ascii("18"), []);
    assert [32 as byte] + Ascii("18") + [] == Ascii(" 18");
    assert Ascii("18") == FormatInt(18);
    ParseFormat(18);
  }

  /** The third header line of the 503 reply declares 18. */
  lemma DeclaredEighteenValue()
    ensures PlainLine(DeclaredEighteen) && Contains(DeclaredEighteen, ContentLengthName)
    ensures FieldValue(DeclaredEighteen) == Some(18)
  {
    var value := Ascii(" 18");
    assert forall i :: 0 <= i < |value| ==> value[i] != 58 && value[i] != 13;
    DeclaringLine(value);
    StripEighteen();
  }

  lemma UnavailableLinesDeclareEighteen()
    ensures PlainLines(UnavailableLines) && LengthField(UnavailableLines) == Some(18)
  {
    UnavailableStatusHasNoLength();
    PlainTextTypeHasNoLength();
    DeclaredEighteenValue();
    CloseConnectionHasNoLength();
    ThirdOfFourLinesDeclares(UnavailableStatus, PlainTextType, DeclaredEighteen, CloseConnection);
  }

  lemma ServiceUnavailableJoined()
    ensures ServiceUnavailable == Join(UnavailableLines, CRLF) + Separator + UnavailableBody
  {
    JoinFour(UnavailableStatus, PlainTextType, DeclaredEighteen, CloseConnection, CRLF);
    SeparatorIsTwoLineEnds();
  }

  /**
   * The 503 reply declares `Content-Length: 18` while the body that follows
   * its blank line is 17 bytes long.
   */
  lemma ServiceUnavailableDeclaresEighteen()
    ensures HeaderComplete(ServiceUnavailable)
    ensures Headers(ServiceUnavailable) == Join(UnavailableLines, CRLF)
    ensures Body(ServiceUnavailable) == UnavailableBody
    ensures ContentLength(Headers(ServiceUnavailable)) == Some(18)
    ensures |Body(ServiceUnavailable)| == 17
  {
    UnavailableLinesDeclareEighteen();
    ServiceUnavailableJoined();
    MessageIs(UnavailableLines, UnavailableBody, ServiceUnavailable);
  }

  /**
   * Consequence: the 503 reply on its own is never a complete message by the
   * framing rule, so a reader that frames it that way reads it whole and then
   * waits for one more byte or for the close.
   */
  lemma ServiceUnavailableAloneWaitsForClose()
    ensures !MessageComplete(ServiceUnavailable)
    ensures Framed([ServiceUnavailable], ServiceUnavailable, 1)
  {
    ServiceUnavailableDeclaresEighteen();
    ShortOnlyReadWaits(ServiceUnavailable, 18);
  }

  /** A single read holding less body than its headers declare is framed on its own, incomplete. */
  lemma ShortOnlyReadWaits(m: Bytes, n: int)
    requires HeaderComplete(m) && ContentLength(Headers(m)) == Some(n) && |Body(m)| < n
    ensures !MessageComplete(m) && Framed([m], m, 1)
  {
    var chunks := [m];
    assert Received(chunks, 1) == m by { ReceivedNext(chunks, 0); }
    assert !MessageComplete(Received(chunks, 0));
  }

  // ---------------------------------------------------------------------------
  // Tunnel side
  // ---------------------------------------------------------------------------

  /**
   * The registration half of `handle_tunnel`: the reply it writes and the
   * entry it appends, with two new, distinct, empty queues.
   */
  method HandleTunnel(reg: TunnelRegistry, conn: ConnId) returns (reply: Bytes, t: Tunnel)
    modifies reg
    ensures reply == RegisteredReply
    ensures t.conn == conn && fresh(t.sendQ) && fresh(t.recvQ) && t.sendQ != t.recvQ
    ensures t.sendQ.items == [] && t.recvQ.items == []
    ensures reg.tunnels == old(reg.tunnels) + [t]
    ensures reg.tunnelIndex == old(reg.tunnelIndex)
  {
    reply := RegisteredReply;
    var sendQueue := new Channel();
    var recvQueue := new Channel();
    t := Tunnel(conn, sendQueue, recvQueue);
    reg.Register(t);
  }

  /**
   * One pass of the relay loop of `handle_tunnel`: the request taken from the
   * send queue and written to the tunnel, the response framed from the
   * tunnel's chunks, and that response put on the receive queue. With the
   * send queue empty, where the broker would block, nothing happens.
   */
  method RelayOnce(t: Tunnel, chunks: seq<Bytes>) returns (request: Option<Bytes>, response: Bytes, used: nat)
    requires t.sendQ != t.recvQ
    modifies t.sendQ, t.recvQ
    ensures old(t.sendQ.items) == [] ==>
      request == None && used == 0 && t.sendQ.items == [] && t.recvQ.items == old(t.recvQ.items)
    ensures old(t.sendQ.items) != [] ==>
      && request == Some(old(t.sendQ.items)[0])
      && t.sendQ.items == old(t.sendQ.items)[1..]
      && Framed(chunks, response, used)
      && t.recvQ.items == old(t.recvQ.items) + [response]
  {
    request := t.sendQ.Get();
    if request.None? {
      return None, [], 0;
    }
    response, used := RecvFullHttpResponse(chunks);
    t.recvQ.Put(response);
  }

  // ---------------------------------------------------------------------------
  // Client side
  // ---------------------------------------------------------------------------

  /** The tunnels registered by other threads during the first `k` sleeps of a waiting client. */
  function Arrived(arrivals: seq<seq<Tunnel>>, k: nat): seq<Tunnel>
    decreases k
  {
    if k == 0 then [] else Arrived(arrivals, k - 1) + (if k - 1 < |arrivals| then arrivals[k - 1] else [])
  }

  /** The registry contents seen by poll number `i` (counting from 0). */
  function Visible(initial: seq<Tunnel>, arrivals: seq<seq<Tunnel>>, i: nat): seq<Tunnel>
  {
    initial + Arrived(arrivals, i)
  }

  lemma VisibleNext(initial: seq<Tunnel>, arrivals: seq<seq<Tunnel>>, k: nat)
    ensures Visible(initial, arrivals, k + 1)
         == Visible(initial, arrivals, k) + (if k < |arrivals| then arrivals[k] else [])
  {
    var batch := if k < |arrivals| then arrivals[k] else [];
    assert Arrived(arrivals, k + 1) == Arrived(arrivals, k) + batch;
    assert initial + (Arrived(arrivals, k) + batch) == (initial + Arrived(arrivals, k)) + batch;
  }

  /** Registrations only add: what one poll sees, every later poll sees too. */
  lemma {:induction false} VisibleGrows(initial: seq<Tunnel>, arrivals: seq<seq<Tunnel>>, i: nat, j: nat)
    requires i <= j
    ensures Visible(initial, arrivals, i) <= Visible(initial, arrivals, j)
    decreases j
  {
    if i < j {
      VisibleGrows(initial, arrivals, i, j - 1);
      assert Visible(initial, arrivals, j - 1) <= Visible(initial, arrivals, j);
    }
  }

  /** After the last batch, no further registrations arrive. */
  lemma {:induction false} ArrivedSaturates(arrivals: seq<seq<Tunnel>>, k: nat)
    requires |arrivals| <= k
    ensures Arrived(arrivals, k) == Arrived(arrivals, |arrivals|)
    decreases k
  {
    if |arrivals| < k {
      ArrivedSaturates(arrivals, k - 1);
    }
  }

  /** Whoever registered by some sleep registered during one of the given batches. */
  lemma ArrivedMember(arrivals: seq<seq<Tunnel>>, k: nat, t: Tunnel)
    requires t in Arrived(arrivals, k)
    ensures t in Arrived(arrivals, |arrivals|)
  {
    if k <= |arrivals| {
      VisibleGrows([], arrivals, k, |arrivals|);
      var i :| 0 <= i < |Arrived(arrivals, k)| && Arrived(arrivals, k)[i] == t;
      assert [] + Arrived(arrivals, k) == Arrived(arrivals, k);
      assert [] + Arrived(arrivals, |arrivals|) == Arrived(arrivals, |arrivals|);
      assert Arrived(arrivals, |arrivals|)[i] == t;
    } else {
      ArrivedSaturates(arrivals, k);
    }
  }

  /** Every tunnel that arrived belongs to one of the batches. */
  lemma {:induction false} ArrivedFrom(arrivals: seq<seq<Tunnel>>, k: nat, u: Tunnel)
    requires u in Arrived(arrivals, k)
    ensures exists i, j :: 0 <= i < |arrivals| && 0 <= j < |arrivals[i]| && arrivals[i][j] == u
    decreases k
  {
    if k > 0 {
      if u in Arrived(arrivals, k - 1) {
        ArrivedFrom(arrivals, k - 1, u);
      } else {
        var j :| 0 <= j < |arrivals[k - 1]| && arrivals[k - 1][j] == u;
      }
    }
  }

  /** The send queues of a list of tunnels. */
  function SendQueues(tunnels: seq<Tunnel>): set<Channel>
  {
    set t | t in tunnels :: t.sendQ
  }

  /** Registrations by another thread, in order. */
  method RegisterAll(reg: TunnelRegistry, batch: seq<Tunnel>)
    modifies reg
    ensures reg.tunnels == old(reg.tunnels) + batch
    ensures reg.tunnelIndex == old(reg.tunnelIndex)
  {
    for j := 0 to |batch|
      invariant reg.tunnels == old(reg.tunnels) + batch[..j]
      invariant reg.tunnelIndex == old(reg.tunnelIndex)
    {
      reg.Register(batch[j]);
      assert batch[..j + 1] == batch[..j] + [batch[j]];
    }
  }

  /**
   * The first poll numbered `from` or later, and below `maxAttempts`, that
   * finds the registry non-empty.
   */
  function FirstSeen(initial: seq<Tunnel>, arrivals: seq<seq<Tunnel>>, from: nat, maxAttempts: nat): (p: Option<nat>)
    ensures p.Some? ==> from <= p.value < maxAttempts && Visible(initial, arrivals, p.value) != []
    ensures p.Some? ==> forall i :: from <= i < p.value ==> Visible(initial, arrivals, i) == []
    ensures p.None? ==> forall i :: from <= i < maxAttempts ==> Visible(initial, arrivals, i) == []
    decreases maxAttempts - from
  {
    if maxAttempts <= from then None
    else if Visible(initial, arrivals, from) != [] then Some(from)
    else FirstSeen(initial, arrivals, from + 1, maxAttempts)
  }

  /**
   * Since registrations only add, the wait fails exactly when the last poll
   * allowed finds the registry empty.
   */
  lemma FirstSeenNoneIffLastEmpty(initial: seq<Tunnel>, arrivals: seq<seq<Tunnel>>, maxAttempts: nat)
    ensures FirstSeen(initial, arrivals, 0, maxAttempts).None?
        <==> (maxAttempts == 0 || Visible(initial, arrivals, maxAttempts - 1) == [])
  {
    var seen := FirstSeen(initial, arrivals, 0, maxAttempts);
    if seen.Some? {
      VisibleGrows(initial, arrivals, seen.value, maxAttempts - 1);
    }
  }

  /**
   * The polling loop of `handle_client`: up to `maxAttempts` calls of
   * `get_next_tunnel`, with the batch `arrivals[i]` registered during the
   * sleep after failed poll `i`. When no poll finds a tunnel, every poll is
   * spent and the cursor is untouched; otherwise the loop stops at the first
   * poll that finds one and returns the round-robin pick of that poll.
   */
  method AwaitTunnel(reg: TunnelRegistry, maxAttempts: nat, arrivals: seq<seq<Tunnel>>)
      returns (t: Option<Tunnel>, polls: nat)
    modifies reg
    ensures t.None? <==> FirstSeen(old(reg.tunnels), arrivals, 0, maxAttempts).None?
    ensures FirstSeen(old(reg.tunnels), arrivals, 0, maxAttempts).None? ==>
      && polls == maxAttempts
      && reg.tunnels == Visible(old(reg.tunnels), arrivals, maxAttempts)
      && reg.tunnelIndex == old(reg.tunnelIndex)
    ensures FirstSeen(old(reg.tunnels), arrivals, 0, maxAttempts).Some? ==>
      var p := FirstSeen(old(reg.tunnels), arrivals, 0, maxAttempts).value;
      && polls == p + 1
      && reg.tunnels == Visible(old(reg.tunnels), arrivals, p)
      && Selection(t, reg.tunnelIndex) == Select(reg.tunnels, old(reg.tunnelIndex))
  {
    ghost var initial, index := reg.tunnels, reg.tunnelIndex;
    ghost var seen := FirstSeen(initial, arrivals, 0, maxAttempts);
    polls := 0;
    t := None;
    while polls < maxAttempts
      invariant polls <= maxAttempts
      invariant reg.tunnels == Visible(initial, arrivals, polls)
      invariant reg.tunnelIndex == index
      invariant FirstSeen(initial, arrivals, polls, maxAttempts) == seen
      invariant t == None
      decreases maxAttempts - polls
    {
      t := reg.GetNextTunnel();
      if t.Some? {
        polls := polls + 1;
        return;
      }
      var batch := if polls < |arrivals| then arrivals[polls] else [];
      RegisterAll(reg, batch);
      VisibleNext(initial, arrivals, polls);
      polls := polls + 1;
    }
  }

  /** What `handle_client` does with the client: answer 503, or hand the bytes to a tunnel. */
  datatype ClientOutcome = Rejected(reply: Bytes) | Forwarded(tunnel: Tunnel)

  /**
   * `handle_client` up to the hand-off: wait for a tunnel as `AwaitTunnel`
   * does, then either write the 503 reply or append the client's bytes to the
   * send queue of the tunnel picked, leaving every other send queue alone.
   */
  method HandleClient(reg: TunnelRegistry, initialData: Bytes, maxAttempts: nat, arrivals: seq<seq<Tunnel>>)
      returns (outcome: ClientOutcome)
    modifies reg, SendQueues(reg.tunnels), SendQueues(Arrived(arrivals, |arrivals|))
    ensures outcome.Rejected? <==> (maxAttempts == 0 || Visible(old(reg.tunnels), arrivals, maxAttempts - 1) == [])
    ensures FirstSeen(old(reg.tunnels), arrivals, 0, maxAttempts).None? ==>
      && outcome == Rejected(ServiceUnavailable)
      && reg.tunnels == Visible(old(reg.tunnels), arrivals, maxAttempts)
      && reg.tunnelIndex == old(reg.tunnelIndex)
    ensures FirstSeen(old(reg.tunnels), arrivals, 0, maxAttempts).Some? ==>
      var p := FirstSeen(old(reg.tunnels), arrivals, 0, maxAttempts).value;
      var s := Select(Visible(old(reg.tunnels), arrivals, p), old(reg.tunnelIndex));
      && outcome == Forwarded(s.pick.value)
      && reg.tunnels == Visible(old(reg.tunnels), arrivals, p)
      && reg.tunnelIndex == s.next
    ensures outcome.Forwarded? ==>
      && outcome.tunnel in old(reg.tunnels) + Arrived(arrivals, |arrivals|)
      && outcome.tunnel.sendQ.items == old(outcome.tunnel.sendQ.items) + [initialData]
    ensures forall u :: (u in old(reg.tunnels) + Arrived(arrivals, |arrivals|) &&
      (outcome.Rejected? || u.sendQ != outcome.tunnel.sendQ)) ==> u.sendQ.items == old(u.sendQ.items)
  {
    ghost var initial := reg.tunnels;
    ghost var known := initial + Arrived(arrivals, |arrivals|);
    FirstSeenNoneIffLastEmpty(initial, arrivals, maxAttempts);
    var tunnel, polls := AwaitTunnel(reg, maxAttempts, arrivals);
    forall u | u in known
      ensures old(allocated(u)) && u.sendQ.items == old(u.sendQ.items)
    {
      if u in initial {
        assert old(allocated(u));
      } else {
        ArrivedFrom(arrivals, |arrivals|, u);
        var i, j :| 0 <= i < |arrivals| && 0 <= j < |arrivals[i]| && arrivals[i][j] == u;
        assert old(allocated(arrivals[i][j]));
      }
    }
    if tunnel.None? {
      return Rejected(ServiceUnavailable);
    }
    var t := tunnel.value;
    assert t in known by {
      assert t in initial + Arrived(arrivals, polls - 1);
      if t !in initial {
        ArrivedMember(arrivals, polls - 1, t);
      }
    }
    assert t.sendQ in SendQueues(initial) + SendQueues(Arrived(arrivals, |arrivals|));
    t.sendQ.Put(initialData);
    outcome := Forwarded(t);
  }

  /**
   * The rest of `handle_client`: the response taken from the tunnel's receive
   * queue, to be written back to the client. With the queue empty, where the
   * broker would block, there is none yet.
   */
  method CollectResponse(t: Tunnel) returns (response: Option<Bytes>)
    modifies t.recvQ
    ensures old(t.recvQ.items) == [] ==> response == None && t.recvQ.items == []
    ensures old(t.recvQ.items) != [] ==>
      response == Some(old(t.recvQ.items)[0]) && t.recvQ.items == old(t.recvQ.items)[1..]
  {
    response := t.recvQ.Get();
  }

  // ---------------------------------------------------------------------------
  // Whole exchanges
  // ---------------------------------------------------------------------------

  /**
   * One tunnel registers, one client connects: the tunnel receives the
   * client's bytes unchanged, and the client receives exactly the response
   * framed from the tunnel's chunks.
   */
  method EndToEnd(tunnelConn: ConnId, request: Bytes, chunks: seq<Bytes>, maxAttempts: nat)
      returns (registered: Bytes, forwarded: Option<Bytes>, relayed: Bytes, used: nat, delivered: Option<Bytes>)
    requires 0 < maxAttempts
    ensures registered == RegisteredReply
    ensures forwarded == Some(request)
    ensures Framed(chunks, relayed, used)
    ensures delivered == Some(relayed)
  {
    var reg := new TunnelRegistry();
    var t;
    registered, t := HandleTunnel(reg, tunnelConn);
    assert Visible(reg.tunnels, [], maxAttempts - 1) == [t] by {
      ArrivedSaturates([], maxAttempts - 1);
    }
    assert SendQueues([t]) == {t.sendQ};
    var outcome := HandleClient(reg, request, maxAttempts, []);
    forwarded, relayed, used := RelayOnce(t, chunks);
    delivered := CollectResponse(t);
  }

  /**
   * Two tunnels register, then two clients connect: the first client's bytes
   * go to the first tunnel and the second client's to the second.
   */
  method TwoClientsTwoTunnels(conn1: ConnId, conn2: ConnId, request1: Bytes, request2: Bytes)
      returns (outcome1: ClientOutcome, outcome2: ClientOutcome)
    ensures outcome1.Forwarded? && outcome1.tunnel.conn == conn1 && outcome1.tunnel.sendQ.items == [request1]
    ensures outcome2.Forwarded? && outcome2.tunnel.conn == conn2 && outcome2.tunnel.sendQ.items == [request2]
  {
    var reg := new TunnelRegistry();
    var reply1, t1 := HandleTunnel(reg, conn1);
    var reply2, t2 := HandleTunnel(reg, conn2);
    assert reg.tunnels == [t1, t2];
    assert SendQueues([t1, t2]) == {t1.sendQ, t2.sendQ};
    assert SendQueues(Arrived([], 0)) == {};
    outcome1 := HandleClient(reg, request1, 1, []);
    assert outcome1.tunnel == t1;
    outcome2 := HandleClient(reg, request2, 1, []);
    assert outcome2.tunnel == t2;
  }

  /** With no tunnel registered and none arriving, every client gets the 503 reply. */
  method NoTunnelRejects(request: Bytes, maxAttempts: nat) returns (outcome: ClientOutcome)
    ensures outcome == Rejected(ServiceUnavailable)
  {
    var reg := new TunnelRegistry();
    if 0 < maxAttempts {
      ArrivedSaturates([], maxAttempts - 1);
    }
    assert SendQueues([]) == {};
    outcome := HandleClient(reg, request, maxAttempts, []);
  }
}
