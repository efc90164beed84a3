/**
 * The per-tunnel `queue.Queue` objects `send_q` and `recv_q`, seen from one
 * thread at a time: a FIFO of byte strings. A `get` on an empty queue, which
 * blocks in the broker, returns `None` here.
 */
module Channels {
  import opened Options
  import opened ByteStrings

  class Channel {
    var items: seq<Bytes>

    constructor ()
      ensures items == []
    {
      items := [];
    }

    /** `q.put(x)`. */
    method Put(x: Bytes)
      modifies this
      ensures items == old(items) + [x]
    {
      items := items + [x];
    }

    /** `q.get()`: the oldest item; `None` where the broker would block. */
    method Get() returns (x: Option<Bytes>)
      modifies this
      ensures old(items) == [] ==> x == None && items == []
      ensures old(items) != [] ==> x == Some(old(items)[0]) && items == old(items)[1..]
    {
      if items == [] {
        x := None;
      } else {
        x := Some(items[0]);
        items := items[1..];
      }
    }
  }
}
