/** `RoundRobinSelector`: a circular scan of the weighted list from a cursor kept
    across calls. */
module RoundRobin {
  import opened Wrappers
  import opened Selector

  /** The index of the entry a round-robin `Get` returns and the cursor it
      leaves, when it scans the non-empty list `s` from `c`: the first connected
      entry and the index after it, or, when none is connected, the entry before
      `c` and `c` itself. */
  function Pick(s: seq<string>, m: map<string, AddrInfo>, c: nat): (p: (nat, nat))
    requires c < |s|
    ensures p.0 < |s| && p.1 < |s|
  {
    match FirstConnected(s, m, c, 0)
    case Some(d) => ((c + d) % |s|, (c + d + 1) % |s|)
    case None => ((c + |s| - 1) % |s|, c)
  }

  /** How many steps forward, going round a list of `n` entries, lead from `c` to `i`. */
  function Distance(c: nat, i: nat, n: nat): nat
    requires c < n && i < n
  {
    if c <= i then i - c else i + n - c
  }

  /** With some entry connected, the pick is the first connected entry at or
      after the cursor, and the cursor moves to the entry after it. */
  lemma PickFirstConnected(s: seq<string>, m: map<string, AddrInfo>, c: nat, i: nat)
    requires c < |s| && i < |s| && IsConnected(m, s[i])
    ensures IsConnected(m, s[Pick(s, m, c).0])
    ensures Pick(s, m, c).1 == (Pick(s, m, c).0 + 1) % |s|
    ensures forall e :: 0 <= e < Distance(c, Pick(s, m, c).0, |s|) ==> !IsConnected(m, Circ(s, c, e))
  {
    ScanFindsConnected(s, m, c, i);
    var d := FirstConnected(s, m, c, 0).value;
    ModWrap(c + d, |s|);
    ModWrap(c + d + 1, |s|);
    ModNext((c + d) % |s|, |s|);
    assert Distance(c, Pick(s, m, c).0, |s|) == d;
  }

  /** With nothing connected, the pick is the (unconnected) entry just before
      the cursor and the cursor stays where it is. */
  lemma PickFallback(s: seq<string>, m: map<string, AddrInfo>, c: nat)
    requires c < |s| && forall i :: 0 <= i < |s| ==> !IsConnected(m, s[i])
    ensures Pick(s, m, c) == (if c == 0 then |s| - 1 else c - 1, c)
    ensures !IsConnected(m, s[Pick(s, m, c).0])
  {
    forall d | 0 <= d < |s| ensures !IsConnected(m, Circ(s, c, d)) {
      assert (c + d) % |s| < |s|;
    }
    assert FirstConnected(s, m, c, 0).None?;
    ModWrap(c + |s| - 1, |s|);
  }

  /** With every entry connected, successive picks walk the list one entry at
      a time, so each address is picked as often as it has copies. */
  lemma PickAllConnected(s: seq<string>, m: map<string, AddrInfo>, c: nat)
    requires c < |s| && forall i :: 0 <= i < |s| ==> IsConnected(m, s[i])
    ensures Pick(s, m, c) == (c, if c + 1 == |s| then 0 else c + 1)
  {
    ModWrap(c, |s|);
    assert IsConnected(m, Circ(s, c, 0));
    ModNext(c, |s|);
  }

  class RoundRobinSelector {
    const book: BaseSelector
    /** Where the next scan starts; it can point past the end after a `Delete`. */
    var next: nat

    ghost predicate Valid()
      reads this, book
    {
      book.Valid()
    }

    constructor ()
      ensures Valid() && fresh(book) && next == 0 && book.addrs == [] && book.addrMap == map[]
    {
      book := new BaseSelector();
      next := 0;
    }

    /** Returns the first connected entry at or after the cursor, going round,
        and moves the cursor past it. When no entry is connected the scan ends
        on the entry just before the cursor and returns that one, unconnected,
        without an error and without moving the cursor. Either way the returned
        entry's load rises by one. */
    method Get() returns (addr: Address, err: Option<Error>)
      requires Valid()
      modifies this, book
      ensures Valid() && book.addrs == old(book.addrs)
      ensures |old(book.addrs)| == 0 ==>
        && addr == NoAddress && err == Some(Sentinel(AddrListEmpty))
        && next == old(next) && book.addrMap == old(book.addrMap)
      ensures |old(book.addrs)| > 0 ==>
        var s, m := old(book.addrs), old(book.addrMap);
        var pick := Pick(s, m, if old(next) >= |s| then 0 else old(next));
        && err == None
        && addr == m[s[pick.0]].address
        && book.addrMap == AddLoad(m, s[pick.0], 1)
        && next == pick.1
    {
      if |book.addrs| == 0 {
        return NoAddress, Some(Sentinel(AddrListEmpty));
      }
      if next >= |book.addrs| {
        next := 0;
      }
      var pick, n := Scan(next);
      var a := book.addrs[pick];
      var info := book.addrMap[a];
      StateChangeKeepsRuns(book.addrs, book.addrMap, AddLoad(book.addrMap, a, 1));
      book.addrMap := AddLoad(book.addrMap, a, 1);
      next := n;
      return info.address, None;
    }

    /** The loop of `Get`: scans from `start`, going round, and stops at the
        first connected entry, or at the entry just before `start` when the
        scan has come round without finding one. It returns the index it
        stopped at and the index after it. */
    method Scan(start: nat) returns (pick: nat, n: nat)
      requires book.Valid() && start < |book.addrs|
      ensures (pick, n) == Pick(book.addrs, book.addrMap, start)
    {
      ghost var s, m, len := book.addrs, book.addrMap, |book.addrs|;
      n, pick := start, start;
      // how many entries the scan has passed over; the loop ends within len rounds
      ghost var steps: nat := 0;
      while true
        invariant steps < len && n == (if start + steps < len then start + steps else start + steps - len)
        invariant FirstConnected(s, m, start, 0) == FirstConnected(s, m, start, steps)
        decreases len - steps
      {
        var a := book.addrs[n];
        ModWrap(start + steps, len);
        assert a == Circ(s, start, steps);
        ModNext(n, len);
        pick := n;
        n := (n + 1) % |book.addrs|;
        assert n == start <==> steps + 1 == len;
        if a in book.addrMap {
          if book.addrMap[a].connected {
            assert FirstConnected(s, m, start, 0) == Some(steps);
            ModWrap(start + steps + 1, len);
            assert Pick(s, m, start) == (pick, n);
            return;
          }
          if n == start {
            // Every entry has been looked at and none is connected.
            assert FirstConnected(s, m, start, 0) == None;
            assert Pick(s, m, start) == (pick, n);
            return;
          }
        }
        steps := steps + 1;
      }
    }
  }
}
