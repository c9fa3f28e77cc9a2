/** How a client picks the server it writes a key through. */
module Routing {
  import opened Bytes

  /** The halves of the hash code swapped, sign bit cleared. */
  function Swapped(hash: int): (s: int)
    requires 0 <= hash <= INT32_MAX
    ensures 0 <= s <= INT32_MAX
  {
    (hash % 0x1_0000 * 0x1_0000 + hash / 0x1_0000) % 0x8000_0000
  }

  /** The low 15 bits go to the top and the high half to the bottom. */
  lemma SwappedIs(hash: int)
    requires 0 <= hash <= INT32_MAX
    ensures Swapped(hash) / 0x1_0000 == hash % 0x8000 && Swapped(hash) % 0x1_0000 == hash / 0x1_0000
  {
    var low, high := hash % 0x1_0000, hash / 0x1_0000;
    assert low % 0x8000 == hash % 0x8000;
    assert low == low / 0x8000 * 0x8000 + low % 0x8000;
    assert low * 0x1_0000 + high == low / 0x8000 * 0x8000_0000 + (low % 0x8000 * 0x1_0000 + high);
  }

  lemma HomeIs(hash: int, n: nat)
    requires 0 <= hash <= INT32_MAX && n > 0
    ensures Home(hash, n) == (hash % 0x8000 * 0x1_0000 + hash / 0x1_0000) % n
  {
    hide Swapped;
    SwappedIs(hash);
  }

  /** The server a hash code belongs to among `n`. */
  function Home(hash: int, n: nat): (i: nat)
    requires 0 <= hash <= INT32_MAX && n > 0
    ensures i < n
  {
    Swapped(hash) % n
  }

  /** The `k`-th server in the order of the scan, which wraps around once. */
  function InTurn(home: nat, n: nat, k: nat): (i: nat)
    requires home < n && k < n
    ensures i < n
  {
    if home + k < n then home + k else home + k - n
  }

  /** The scan comes by every server. */
  lemma ScanCovers(home: nat, n: nat, i: nat) returns (k: nat)
    requires home < n && i < n
    ensures k < n && InTurn(home, n, k) == i
  {
    k := if i >= home then i - home else i + n - home;
  }

  /** Connected already, or answering when asked to connect. */
  predicate Up(connected: seq<bool>, errors: seq<int>, i: nat)
    requires i < |connected| == |errors|
  {
    connected[i] || errors[i] == 0
  }

  /**
    `get_connection`: the first server, from the home of the hash code on and around, that is
    connected or can be. `errors` holds what connecting to each server would return.
   */
  method GetConnection(hash: int, sockets: array<bool>, errors: seq<int>) returns (server: Option<nat>, errno: int)
    requires 0 <= hash <= INT32_MAX && sockets.Length == |errors| > 0
    modifies sockets
    ensures var n, was := |errors|, old(sockets[..]);
            var home := Home(hash, n);
            match server
            case Some(i) =>
              && i < n && Up(was, errors, i) && sockets[..] == was[i := true]
              && (exists k | 0 <= k < n :: InTurn(home, n, k) == i
                   && forall j | 0 <= j < k :: !Up(was, errors, InTurn(home, n, j)))
            case None =>
              && sockets[..] == was && errno != 0
              && forall i | 0 <= i < n :: !Up(was, errors, i)
    ensures var home := Home(hash, |errors|); Up(old(sockets[..]), errors, home) ==> server == Some(home)
  {
    var n := |errors|;
    ghost var was := sockets[..];
    var home := Home(hash, n);
    server, errno := None, ENOENT;
    var i := home;
    while i < n
      invariant home <= i <= n && sockets[..] == was && errno != 0
      invariant forall j | 0 <= j < i - home :: !Up(was, errors, InTurn(home, n, j))
    {
      ghost var k := i - home;
      assert InTurn(home, n, k) == i && InTurn(home, n, 0) == home;
      if sockets[i] {
        assert was[i := true] == was;
        return Some(i), errno;
      }
      errno := errors[i];
      if errno == 0 {
        sockets[i] := true;
        return Some(i), errno;
      }
      i := i + 1;
    }
    assert InTurn(home, n, 0) == home && !Up(was, errors, home);
    i := 0;
    while i < home
      invariant 0 <= i <= home && sockets[..] == was && errno != 0
      invariant forall j | 0 <= j < n - home + i :: !Up(was, errors, InTurn(home, n, j))
    {
      ghost var k := n - home + i;
      assert InTurn(home, n, k) == i;
      if sockets[i] {
        assert was[i := true] == was;
        return Some(i), errno;
      }
      errno := errors[i];
      if errno == 0 {
        sockets[i] := true;
        return Some(i), errno;
      }
      i := i + 1;
    }
    assert InTurn(home, n, 0) == home;
    forall s | 0 <= s < n ensures !Up(was, errors, s) {
      var k := ScanCovers(home, n, s);
      assert !Up(was, errors, InTurn(home, n, k));
    }
  }
}
