/**
 * The tunnel registry of `TunnelServer`: the list `tunnels` of registered
 * tunnels, in registration order, and the round-robin cursor `tunnel_index`.
 * Registration appends (`tunnels.append`), `get_next_tunnel` picks the entry
 * at the cursor modulo the list length and advances the cursor, and
 * `remove_tunnel` filters the list by connection. Removal leaves the cursor
 * alone, so it may exceed the list length; only the modulo at the next
 * selection brings it back in range.
 */
module Registry {
  import opened Options
  import opened Channels

  /** The identity of a socket object; `!=` on sockets compares identities. */
  type ConnId = nat

  /** One registry entry, the dictionary `{'conn': ..., 'send_q': ..., 'recv_q': ...}`. */
  datatype Tunnel = Tunnel(conn: ConnId, sendQ: Channel, recvQ: Channel)

  /** The outcome of one selection: the tunnel picked, if any, and the new cursor. */
  datatype Selection = Selection(pick: Option<Tunnel>, next: nat)

  /** `get_next_tunnel` on a registry state. */
  function Select(tunnels: seq<Tunnel>, index: nat): (s: Selection)
    ensures s.pick.None? <==> tunnels == []
    ensures tunnels == [] ==> s.next == index
    ensures tunnels != [] ==> s.pick.value in tunnels && s.next < |tunnels|
  {
    if tunnels == [] then Selection(None, index)
    else Selection(Some(tunnels[index % |tunnels|]), (index + 1) % |tunnels|)
  }

  /** The tunnels picked by `n` selections in a row with no registration or removal between them. */
  function Picks(tunnels: seq<Tunnel>, index: nat, n: nat): (picks: seq<Tunnel>)
    requires tunnels != []
    ensures |picks| == n
    decreases n
  {
    if n == 0 then []
    else
      var s := Select(tunnels, index);
      [s.pick.value] + Picks(tunnels, s.next, n - 1)
  }

  /** `[t for t in tunnels if t['conn'] != conn]`. */
  function Without(tunnels: seq<Tunnel>, conn: ConnId): (rest: seq<Tunnel>)
    ensures |rest| <= |tunnels|
    ensures forall i :: 0 <= i < |rest| ==> rest[i] in tunnels && rest[i].conn != conn
    ensures forall i :: 0 <= i < |tunnels| && tunnels[i].conn != conn ==> tunnels[i] in rest
  {
    if tunnels == [] then []
    else (if tunnels[0].conn != conn then [tunnels[0]] else []) + Without(tunnels[1..], conn)
  }

  class TunnelRegistry {
    var tunnels: seq<Tunnel>
    var tunnelIndex: nat

    constructor ()
      ensures tunnels == [] && tunnelIndex == 0
    {
      tunnels := [];
      tunnelIndex := 0;
    }

    /** `self.tunnels.append(...)` in `handle_tunnel`. */
    method Register(t: Tunnel)
      modifies this
      ensures tunnels == old(tunnels) + [t]
      ensures tunnelIndex == old(tunnelIndex)
    {
      tunnels := tunnels + [t];
    }

    /** `get_next_tunnel`. */
    method GetNextTunnel() returns (t: Option<Tunnel>)
      modifies this
      ensures tunnels == old(tunnels)
      ensures Selection(t, tunnelIndex) == Select(old(tunnels), old(tunnelIndex))
    {
      if tunnels == [] {
        return None;
      }
      t := Some(tunnels[tunnelIndex % |tunnels|]);
      tunnelIndex := (tunnelIndex + 1) % |tunnels|;
    }

    /** `remove_tunnel`. */
    method RemoveTunnel(conn: ConnId)
      modifies this
      ensures tunnels == Without(old(tunnels), conn)
      ensures tunnelIndex == old(tunnelIndex)
    {
      tunnels := Without(tunnels, conn);
    }
  }

  // ---------------------------------------------------------------------------
  // Round robin
  // ---------------------------------------------------------------------------

  lemma {:induction false} MulAtLeast(k: int, n: int)
    requires k >= 1 && n > 0
    ensures k * n >= n
    decreases k
  {
    if k > 1 {
      MulAtLeast(k - 1, n);
      assert k * n == (k - 1) * n + n;
    }
  }

  /** Euclidean remainder is determined by any decomposition `y == d * n + r` with `0 <= r < n`. */
  lemma DivModUnique(y: int, n: int, d: int, r: int)
    requires n > 0 && 0 <= r < n && y == d * n + r
    ensures y % n == r
  {
    var d', r' := y / n, y % n;
    assert y == d' * n + r';
    assert (d - d') * n == r' - r;
    if d > d' {
      MulAtLeast(d - d', n);
    } else if d < d' {
      MulAtLeast(d' - d, n);
    }
  }

  lemma ModAddMultiple(x: nat, q: nat, n: nat)
    requires n > 0
    ensures (x + q * n) % n == x % n
  {
    var d, r := x / n, x % n;
    assert x == d * n + r;
    assert x + q * n == (d + q) * n + r;
    DivModUnique(x + q * n, n, d + q, r);
  }

  lemma ModBelow(y: nat, n: nat)
    requires y < n
    ensures y % n == y
  {
  }

  lemma ModWrap(y: nat, n: nat)
    requires n <= y < 2 * n
    ensures y % n == y - n
  {
    ModAddMultiple(y - n, 1, n);
    ModBelow(y - n, n);
  }

  lemma ModAdd(x: nat, j: nat, n: nat)
    requires n > 0
    ensures (x % n + j) % n == (x + j) % n
  {
    ModAddMultiple(x % n + j, x / n, n);
    assert x + j == x % n + j + (x / n) * n;
  }

  /** The `j`-th of consecutive selections picks the entry `j` places after the cursor, cyclically. */
  lemma {:induction false} PicksAt(tunnels: seq<Tunnel>, index: nat, n: nat, j: nat)
    requires tunnels != [] && j < n
    ensures Picks(tunnels, index, n)[j] == tunnels[(index + j) % |tunnels|]
    decreases j
  {
    if j > 0 {
      var next := (index + 1) % |tunnels|;
      PicksAt(tunnels, next, n - 1, j - 1);
      ModAdd(index + 1, j - 1, |tunnels|);
    }
  }

  /** Selections repeat with period `len(tunnels)`. */
  lemma PicksPeriodic(tunnels: seq<Tunnel>, index: nat, n: nat, j: nat)
    requires tunnels != [] && j + |tunnels| < n
    ensures Picks(tunnels, index, n)[j + |tunnels|] == Picks(tunnels, index, n)[j]
  {
    PicksAt(tunnels, index, n, j);
    PicksAt(tunnels, index, n, j + |tunnels|);
    ModAddMultiple(index + j, 1, |tunnels|);
  }

  /** `len(tunnels)` selections in a row return every registered entry exactly once. */
  lemma RoundVisitsEach(tunnels: seq<Tunnel>, index: nat)
    requires tunnels != []
    ensures multiset(Picks(tunnels, index, |tunnels|)) == multiset(tunnels)
  {
    var n := |tunnels|;
    var k := index % n;
    var picks := Picks(tunnels, index, n);
    var rotated := tunnels[k..] + tunnels[..k];
    forall j | 0 <= j < n
      ensures picks[j] == rotated[j]
    {
      PicksAt(tunnels, index, n, j);
      ModAdd(index, j, n);
      if k + j < n {
        ModBelow(k + j, n);
      } else {
        ModWrap(k + j, n);
      }
    }
    assert picks == rotated;
    assert tunnels == tunnels[..k] + tunnels[k..];
  }

  /** With two or more tunnels of distinct connections, no tunnel is picked twice in a row. */
  lemma ConsecutivePicksDiffer(tunnels: seq<Tunnel>, index: nat, n: nat, j: nat)
    requires |tunnels| > 1 && j + 1 < n
    requires forall p, q :: 0 <= p < q < |tunnels| ==> tunnels[p].conn != tunnels[q].conn
    ensures Picks(tunnels, index, n)[j] != Picks(tunnels, index, n)[j + 1]
  {
    var len := |tunnels|;
    PicksAt(tunnels, index, n, j);
    PicksAt(tunnels, index, n, j + 1);
    var p := (index + j) % len;
    ModAdd(index + j, 1, len);
    if p + 1 < len {
      ModBelow(p + 1, len);
    } else {
      ModWrap(p + 1, len);
    }
  }

  // ---------------------------------------------------------------------------
  // Removal
  // ---------------------------------------------------------------------------

  /** Removal keeps the surviving entries in their registration order. */
  lemma {:induction false} WithoutAppend(a: seq<Tunnel>, b: seq<Tunnel>, conn: ConnId)
    ensures Without(a + b, conn) == Without(a, conn) + Without(b, conn)
  {
    if a == [] {
      assert a + b == b;
    } else {
      assert (a + b)[1..] == a[1..] + b;
      WithoutAppend(a[1..], b, conn);
    }
  }

  /** Removing a connection twice is the same as removing it once. */
  lemma {:induction false} WithoutIdempotent(tunnels: seq<Tunnel>, conn: ConnId)
    ensures Without(Without(tunnels, conn), conn) == Without(tunnels, conn)
  {
    if tunnels != [] {
      var head := if tunnels[0].conn != conn then [tunnels[0]] else [];
      WithoutAppend(head, Without(tunnels[1..], conn), conn);
      WithoutIdempotent(tunnels[1..], conn);
    }
  }

  /** Removing a connection that is not registered changes nothing. */
  lemma {:induction false} WithoutAbsent(tunnels: seq<Tunnel>, conn: ConnId)
    requires forall i :: 0 <= i < |tunnels| ==> tunnels[i].conn != conn
    ensures Without(tunnels, conn) == tunnels
  {
    if tunnels != [] {
      WithoutAbsent(tunnels[1..], conn);
    }
  }
}
