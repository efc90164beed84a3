# Tunnel broker core in Dafny

`tunnel.py` is a single-port reverse-tunnel broker. A tunnel client connects
and sends a request for `/register`. The broker answers 200 and keeps that
connection as a *tunnel*. A connection whose first read is empty, or whose
bytes hold fewer than two whitespace-separated words, is closed. Every other
connection is a *client*. The broker picks a tunnel round-robin and puts the client's first bytes on that tunnel's
send queue. The tunnel's worker writes the bytes to the tunnel connection. It
then reads one HTTP response back and puts it on the tunnel's receive queue,
and the client's worker writes that response back to the client. When no
tunnel turns up within a bounded wait, the client gets a fixed 503 reply.

This project models that core and proves properties of the model:

- `ByteStrings`: Python `bytes` and the library operations the broker uses
  on them: `in`, `split`, `strip` and `int()`. `Join` and `FormatInt`
  (`d.join(parts)`, `str(n).encode()`) are not used by the broker. They are
  reference inverses, and the round-trip lemmas pin `Split` and `ParseInt`
  down against them.
- `HttpFraming`: the response framer `recv_full_http_response`. It works on
  a connection modelled as a sequence of chunks, one per `recv` call. An empty
  chunk, or a read past the last chunk, is the end of the stream.
  - The method is proved against the predicate `Framed`, which says the
    framer returns:
    - the concatenation of the chunks read;
    - having read no chunk past the first prefix that forms a complete
      message;
    - having stopped because the message was complete or the stream ended.
  - `FramedUnique` shows that this predicate determines the result.
- `Dispatch`: the routing at the top of `dispatch_connection`. It takes the
  whitespace-separated words of the first bytes read and routes on the second
  word, the path.
- `Channels`: the per-tunnel `queue.Queue` objects, as a FIFO class.
- `Registry`: `tunnels` and `tunnel_index` as a class with `Register`
  (`tunnels.append`), `GetNextTunnel` and `RemoveTunnel`. It also holds
  round-robin lemmas: the `j`-th pick, periodicity, each tunnel once per
  round, and no immediate repeat. It also holds order and idempotence lemmas
  for removal.
- `Relay`: the two handlers.
  - The registration reply and the 503 reply, as constants.
  - The registration half of `handle_tunnel` and one pass of its relay loop.
  - `handle_client` as a bounded poll of the registry, then the hand-off to
    the send queue.
  - The collection of the response from the receive queue.
  - Whole exchanges with one and with two tunnels.

The 503 reply declares `Content-Length: 18`, but the body after its blank line
is `No tunnel is open`, which is 17 bytes. `ServiceUnavailableDeclaresEighteen`
proves both numbers for the constant as written. `ServiceUnavailableAloneWaitsForClose` proves the consequence: by the
broker's own framing rule, that reply alone is never complete. A reader that
honours the declared length waits for the close.

Behaviour of the code to note:

- **Framing.**
  - The code only knows `Content-Length`. It has no chunked transfer
    coding.
  - It matches the field name `Content-Length:` by case-sensitive substring.
    It uses the first line that contains it, even when the value there is not
    an integer. In that case no length is used.
  - Surplus bytes that arrive in the same read as the end of the body are
    kept in the response (`ExampleKeepsSurplus`). Reading does not stop
    exactly at the message boundary.
- **Registry.** Removal does not adjust `tunnel_index`. The cursor may then
  exceed the list length, and only the modulo at the next selection brings it
  back in range (`Select` holds for every cursor value).
- **Tunnel errors.** On a tunnel error the code removes the tunnel. It does
  not push a marker to a client that is waiting on the tunnel's receive queue.

## Model

| member | source | states |
|---|---|---|
| ByteStrings.IndexFrom | tunnel.py:159 | `pat in s` finds the first position where `pat` occurs, and reports none exactly when no position matches |
| ByteStrings.Split | tunnel.py:168 | `s.split(d)` yields at least one part; it yields exactly one when `d` does not occur; no part contains `d` |
| ByteStrings.JoinSplit | tunnel.py:168 | joining the parts of a split with the delimiter gives back the original bytes |
| ByteStrings.Strip | tunnel.py:171 | the result of `strip()` neither starts nor ends with ASCII whitespace |
| ByteStrings.StripPadded | tunnel.py:171 | `strip()` removes exactly the whitespace around a value that neither starts nor ends with whitespace |
| ByteStrings.ParseInt | tunnel.py:171-173 | `int()` succeeds exactly on an optional sign followed by one or more decimal digits; otherwise it is the `ValueError` path |
| ByteStrings.ParseFormat | tunnel.py:171 | `int()` inverts decimal formatting for every integer |
| ByteStrings.DecimalValue | tunnel.py:171 | the digits of `n` have value `n` |
| ByteStrings.ParseDecimal | tunnel.py:171 | `int()` reads the digits of a natural number back as that number |
| ByteStrings.ParseDigit | tunnel.py:171 | a single decimal digit survives `strip()` and `int()` reads it as its value |
| ByteStrings.StripWord | tunnel.py:171 | `strip()` leaves unchanged a value that neither starts nor ends with whitespace |
| HttpFraming.FieldValue | tunnel.py:171 | definition: `int()` of the stripped text between the first and second colon of the line, `None` on the `ValueError` path |
| HttpFraming.FieldValueDefined | tunnel.py:171-173 | a line that names the field has a second colon-separated field, and it declares a length exactly when that field, stripped, is an integer literal |
| HttpFraming.LengthField | tunnel.py:168-174 | definition: the value of the first line containing `Content-Length:`, and `None` when no line contains it |
| HttpFraming.ContentLength | tunnel.py:168 | definition: `LengthField` of the header block split on CRLF |
| HttpFraming.DeclaringIndex | tunnel.py:168-174 | a declared length comes from some line of the block that contains `Content-Length:`, and equals that line's value |
| HttpFraming.DeclaredNameOccurs | tunnel.py:168-174 | a header block that declares a length contains `Content-Length:` itself |
| HttpFraming.NamedLineHasColon | tunnel.py:169-171 | a line containing `Content-Length:` splits on `:` into at least two fields, so `[1]` exists |
| HttpFraming.FirstFieldDecides | tunnel.py:168-174 | the declared length is decided by the first header line containing `Content-Length:`; later lines are ignored |
| HttpFraming.NoFieldNoLength | tunnel.py:168-174 | without such a line, no length is declared |
| HttpFraming.ScanContentLength | tunnel.py:168-174 | the header loop with its `break` computes exactly the declared length of the header block |
| HttpFraming.HeaderComplete | tunnel.py:159 | definition: the buffer contains `\r\n\r\n` |
| HttpFraming.Headers | tunnel.py:165 | definition: the bytes before the first `\r\n\r\n` |
| HttpFraming.Body | tunnel.py:165 | definition: the bytes after the first `\r\n\r\n` |
| HttpFraming.MessageComplete | tunnel.py:159-177 | definition: the framer's stopping condition, that the header block has ended and the body has reached the declared length, if any |
| HttpFraming.Framed | tunnel.py:154-184 | definition: the response is the concatenation of the reads made, each returned data, no shorter prefix was complete, and reading stopped on completion or end of stream |
| HttpFraming.SeparatorAt | tunnel.py:165 | the split position of the first blank line leaves room for the four separator bytes |
| HttpFraming.SplitRejoin | tunnel.py:165 | `headers + CRLFCRLF + body` rebuilds the buffer, and the headers hold no separator |
| HttpFraming.ReceivedNext | tunnel.py:155-158 | each read appends the chunk to the buffer |
| HttpFraming.ReceivedPrefix | tunnel.py:155-181 | what later reads add is the concatenation of the later chunks |
| HttpFraming.IncompleteBeforeNext | tunnel.py:154-163 | reading one more chunk past an incomplete buffer keeps every earlier prefix incomplete |
| HttpFraming.ReadStart | tunnel.py:149-150 | before the first read the buffer is empty and not a complete message |
| HttpFraming.ReadNext | tunnel.py:155-158 | a read that returns data past an incomplete buffer appends the chunk and keeps every prefix read so far incomplete |
| HttpFraming.BodyGrows | tunnel.py:177-181 | after the header block has ended, a read adds to the body and leaves the headers alone |
| HttpFraming.ShortBodyIncomplete | tunnel.py:177 | a body shorter than the declared length is not a complete message |
| HttpFraming.BodyNext | tunnel.py:176-181 | while the body is shorter than declared, a read that returns data appends it to the body, keeps the headers, and keeps every prefix incomplete |
| HttpFraming.LongBodyComplete | tunnel.py:176 | once the header block has ended and the body has reached the declared length, if any, the message is complete |
| HttpFraming.FramedAt | tunnel.py:162-184 | stopping, after reads that each returned data and never completed the message early, at completion or at end of stream yields the framer's result |
| HttpFraming.ReadHeaderBlock | tunnel.py:149-160 | the first loop returns exactly the bytes of the reads it made, each of which returned data, with no earlier prefix complete and no earlier prefix holding `\r\n\r\n`; it stops once `\r\n\r\n` has arrived or the stream ends |
| HttpFraming.ReadBody | tunnel.py:176-181 | the second loop keeps the headers, its body is the body part of everything read, and it stops only once the message is complete or the stream ends |
| HttpFraming.RecvFullHttpResponse | tunnel.py:144-184 | the framer returns the concatenation of the chunks it read; it reads no chunk past the first complete prefix; it stops only on completion or end of stream |
| HttpFraming.FramedUnique | tunnel.py:144-184 | that description admits exactly one result for a given stream |
| HttpFraming.HeadersStable | tunnel.py:165-181 | once the header block is complete, further reads change only the body |
| HttpFraming.NoSeparatorReturnsAll | tunnel.py:154-163 | without a blank line in the whole stream, the framer returns everything received |
| HttpFraming.NoLengthStopsAtHeaders | tunnel.py:159-177 | without a declared length, the framer stops at the first read that completes the header block |
| HttpFraming.DeclaredLengthStops | tunnel.py:177-181 | with a declared length `n`, the framer stops only once the body holds `n` bytes or the stream ends; no earlier read had `n` body bytes |
| HttpFraming.SplitJoinPlain | tunnel.py:168 | header lines joined with CRLF split back into the same lines |
| HttpFraming.SeparatorAfterPlainLines | tunnel.py:159-165 | in header lines followed by CRLFCRLF and a body, the first separator is the one after the last line |
| HttpFraming.SeparatorAfterLine | tunnel.py:159-165 | a header line and CRLF in front of a text shift its first separator by their length |
| HttpFraming.MessageParts | tunnel.py:165-174 | a message built from header lines and a body splits back into them and declares what its lines declare |
| HttpFraming.CompleteIffLongEnough | tunnel.py:159-181 | such a message is complete exactly when no length is declared or the body has reached it |
| HttpFraming.NoLateColonNoName | tunnel.py:169 | a line whose colons all come before position 14 does not contain `Content-Length:` |
| HttpFraming.FieldValueAfterName | tunnel.py:169-171 | `Content-Length:` followed by a value without colons declares `int(value.strip())` |
| HttpFraming.PlainLineWithoutName | tunnel.py:169 | a header line without CR whose colons come before position 14 declares nothing |
| HttpFraming.DeclaringLine | tunnel.py:169-171 | `Content-Length:` followed by a value free of CR and colons is a header line that declares `int(value.strip())` |
| HttpFraming.DigitDeclares | tunnel.py:169-171 | `Content-Length:` followed by one digit declares that digit's value |
| HttpFraming.SecondOfTwoDeclares | tunnel.py:168-174 | of two header lines, when only the second names the field, that line gives the declared length |
| HttpFraming.ExampleLinesDeclareTwo | tunnel.py:168-174 | the header lines `HTTP/1.1 200 OK`, `Content-Length:2` declare 2 |
| HttpFraming.ExampleStopsAtDeclaredLength | tunnel.py:177-183 | with the body `ok` in a later chunk, the framer returns the message and leaves the next chunk unread |
| HttpFraming.ExampleKeepsSurplus | tunnel.py:177-183 | bytes past the declared length that arrive in the same read are part of the response |
| HttpFraming.BodyInLaterRead | tunnel.py:176-183 | a header block declaring `n > 0`, then a read bringing at least `n` bytes: the framer stops after that read, whatever follows in the stream |
| HttpFraming.SurplusKept | tunnel.py:176-183 | a single read holding the header block and more than the declared body is returned whole |
| Dispatch.WordLength | tunnel.py:46 | the leading word ends at the first whitespace byte |
| Dispatch.Words | tunnel.py:46 | `split()` yields non-empty words free of whitespace |
| Dispatch.WordLengthBefore | tunnel.py:46 | a word is delimited by the whitespace that follows it |
| Dispatch.WordsAround | tunnel.py:46 | a word between whitespace bytes splits out as a word in its own right |
| Dispatch.SingleWord | tunnel.py:46 | a non-empty run without whitespace is exactly one word |
| Dispatch.TwoWords | tunnel.py:46 | two runs without whitespace, with a whitespace byte between them, are exactly two words |
| Dispatch.Classify | tunnel.py:41-56 | empty data is closed; a connection that is not closed has at least two words; a tunnel has `/register` as its second word; a client has another second word and keeps every byte read |
| Dispatch.LeadingSpace | tunnel.py:46 | whitespace in front of the data adds no word and removes none |
| Dispatch.WordThenRest | tunnel.py:46 | a run without whitespace followed by whitespace or the end is the first word, and the words after it are those of what follows the whitespace byte |
| Dispatch.RoutedOnPath | tunnel.py:46-56 | for any leading whitespace, any method, any non-empty run of whitespace between method and path, any path and any rest that is empty or starts with whitespace, the connection is a tunnel exactly when the path is `/register`, and otherwise a client that keeps every byte; with `ClosedWithoutSecondWord` this covers every input |
| Dispatch.ClosedWithoutSecondWord | tunnel.py:42-49 | data made of whitespace, at most one run without whitespace and more whitespace is closed; this covers the empty read and every one-word buffer |
| Dispatch.PathMayFollowNewline | tunnel.py:46-54 | `GET\n/register` registers a tunnel: the second word of the whole buffer counts, whatever whitespace precedes it |
| Channels.Channel.Put | tunnel.py:84 | `put` appends at the tail |
| Channels.Channel.Get | tunnel.py:75 | `get` removes and returns the head; an empty queue yields nothing and stays empty |
| Registry.Select | tunnel.py:93-100 | selection fails exactly on an empty registry, and then leaves the cursor alone; otherwise it returns a registered tunnel and a cursor below the length |
| Registry.Picks | tunnel.py:93-100 | `n` selections in a row make `n` picks |
| Registry.Without | tunnel.py:207 | removal keeps exactly the entries whose connection differs |
| Registry.TunnelRegistry.Register | tunnel.py:69-70 | registration appends at the end and leaves the cursor alone |
| Registry.TunnelRegistry.GetNextTunnel | tunnel.py:93-100 | the pick and the new cursor are those of `Select`, and the list is unchanged |
| Registry.TunnelRegistry.RemoveTunnel | tunnel.py:204-208 | the list becomes `Without(conn)`, and the cursor is unchanged |
| Registry.PicksAt | tunnel.py:98-99 | the `j`-th consecutive pick is the entry `j` places after the cursor, cyclically |
| Registry.PicksPeriodic | tunnel.py:98-99 | picks repeat with period `len(tunnels)` |
| Registry.RoundVisitsEach | tunnel.py:98-99 | `len(tunnels)` consecutive picks return every tunnel exactly once (as multisets) |
| Registry.ConsecutivePicksDiffer | tunnel.py:98-99 | with two or more distinct tunnels, no tunnel is picked twice in a row |
| Registry.WithoutAppend | tunnel.py:207 | removal keeps the survivors in registration order |
| Registry.WithoutIdempotent | tunnel.py:207 | removing twice equals removing once |
| Registry.WithoutAbsent | tunnel.py:207 | removing an unregistered connection changes nothing |
| Relay.RegisteredReplyJoined | tunnel.py:63 | the registration reply is its three header lines joined by CRLF, the blank line and the body `Tunnel registered\n` |
| Relay.RegisteredReplyShape | tunnel.py:63 | the registration reply has the three header lines and the body `Tunnel registered\n`, and declares no length |
| Relay.DeclaredEighteenValue | tunnel.py:121 | the line `Content-Length: 18` declares 18 |
| Relay.UnavailableLinesDeclareEighteen | tunnel.py:118-123 | the 503 header lines are well formed and declare 18 |
| Relay.ServiceUnavailableJoined | tunnel.py:118-125 | the 503 reply is its four header lines joined by CRLF, the blank line and the body `No tunnel is open` |
| Relay.ServiceUnavailableDeclaresEighteen | tunnel.py:118-125 | the 503 reply declares 18, but its body is 17 bytes |
| Relay.ServiceUnavailableAloneWaitsForClose | tunnel.py:118-126 | by the broker's framing rule the 503 reply alone is incomplete; it is framed whole only at end of stream |
| Relay.HandleTunnel | tunnel.py:61-71 | the reply is the registration reply; the registry gains one entry at the end, with two new, distinct, empty queues; the cursor is unchanged |
| Relay.RelayOnce | tunnel.py:73-84 | the request is the head of the send queue; the response is framed from the tunnel's chunks and appended to the receive queue; an empty send queue changes nothing |
| Relay.VisibleNext | tunnel.py:109-114 | each sleep adds that sleep's registrations to what the next poll sees |
| Relay.VisibleGrows | tunnel.py:109-114 | what one poll sees, every later poll sees too |
| Relay.FirstSeen | tunnel.py:109-114 | the first poll that finds a tunnel; every poll before it finds none; when there is none, every poll finds none |
| Relay.FirstSeenNoneIffLastEmpty | tunnel.py:109-116 | the wait fails exactly when the last poll allowed finds the registry empty |
| Relay.RegisterAll | tunnel.py:69-70 | registrations made by another thread append their tunnels in order and leave the cursor alone |
| Relay.AwaitTunnel | tunnel.py:104-114 | the wait fails exactly when `FirstSeen` finds no poll, having spent every poll without moving the cursor; otherwise it stops after that poll with its round-robin pick |
| Relay.HandleClient | tunnel.py:102-130 | a client is rejected with the 503 reply exactly when the last poll finds no tunnel; otherwise its bytes are appended to the picked tunnel's send queue, and every other send queue is unchanged |
| Relay.CollectResponse | tunnel.py:133-136 | the bytes written back to the client are the head of the receive queue |
| Relay.EndToEnd | tunnel.py:61-136 | with one tunnel, the tunnel receives the client's bytes unchanged, and the client receives exactly the response framed from the tunnel's chunks |
| Relay.TwoClientsTwoTunnels | tunnel.py:93-130 | with two tunnels, two clients in a row are sent to different tunnels, in registration order |
| Relay.NoTunnelRejects | tunnel.py:116-127 | with no tunnel and none arriving, a client gets the 503 reply |

## Left out

- Sockets, `accept`, `sendall` and `close`: bytes written are
  out-parameters, and bytes read are a sequence of chunks. The read sizes
  (`recv(1024)`, `recv(4096)`) are not modelled; one chunk stands for
  whatever a call returns.
- Threads and `tunnels_lock`. Each handler is a sequential method. The
  registrations that other threads make while a client sleeps are the
  parameter `arrivals`. Removals by other threads during that wait are not
  modelled.
- Blocking `queue.Queue.get`. A `get` on an empty queue returns nothing
  instead of blocking. The relay loop of `handle_tunnel` is modelled one pass
  at a time (`RelayOnce`), not as an endless loop.
- `handle_client` is split at the blocking `get` into `HandleClient` and
  `CollectResponse`. `EndToEnd` composes them with `RelayOnce` in between,
  standing for the tunnel thread's turn.
- The time accounting of the wait (`max_wait`, `interval`, `time.sleep`, and
  the float sum `waited += interval`). The number of polls it allows is the
  parameter `maxAttempts`.
- `health_check_tunnels` (lines 186-202). It needs clocks, timeouts and
  probe writes. Its effect on the registry is `RemoveTunnel`. It is also
  out of scope because it calls `remove_tunnel` while already holding the
  same non-reentrant `threading.Lock`.
- The exception paths of `dispatch_connection`, `handle_tunnel` and
  `handle_client` (lines 57-59, 86-91, 138-142). The removal in the
  `finally` at line 90 is `RemoveTunnel`.
- `print` logging, `handle_request`, the constructor's socket setup, and the
  `__main__` block.
- `decode(errors='ignore')` and non-ASCII whitespace. The words of the first
  bytes are split on ASCII whitespace over bytes. Non-UTF-8 input and
  Unicode whitespace such as U+0085 or U+00A0 are not modelled.
- ByteStrings.ParseInt does not accept the underscores between digits that
  Python's `int()` allows. It also does not model the 4300-digit limit
  (`sys.int_max_str_digits`) of CPython 3.11 and later and of recent security
  releases. Under that limit a longer value raises `ValueError`, and the framer
  then uses no length. The model reads a value of any length.
- The contents written to the tunnel socket by `conn.sendall(request_data)`
  are the out-parameter `request` of `RelayOnce`. Write failures are not
  modelled.
