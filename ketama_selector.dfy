/** `KetamaSelector`: consistent hashing over virtual nodes, one per copy of
    an address, on top of the weighted address book. */
module Ketama {
  import opened Wrappers
  import opened Selector
  import Strconv

  /** The context key under which callers put the routing key when the
      selector is built with an empty key name. */
  const DefaultKetamaKey := "grpc-lb-ketama-key"

  /** The virtual node for copy `i` of `addr`: `addr`, a '-', and `i` in decimal. */
  function WrapAddr(addr: string, i: nat): (r: string)
    ensures |r| > |addr| + 1 && r[..|addr|] == addr && r[|addr|] == '-'
    ensures Strconv.AllDigits(r[|addr| + 1..]) && r[|addr| + 1..] == Strconv.Itoa(i)
  {
    addr + "-" + Strconv.Itoa(i)
  }

  /** The first piece of splitting `node` at '-': the longest prefix of `node`
      without a '-'. */
  function UpWrapAddr(node: string): (r: string)
    ensures r <= node && '-' !in r
    ensures |r| < |node| ==> node[|r|] == '-'
  {
    if node == [] then []
    else if node[0] == '-' then []
    else [node[0]] + UpWrapAddr(node[1..])
  }

  /** Mapping a virtual node back gives its address exactly when the address
      itself contains no '-'; otherwise only the text before its first '-'
      comes back. */
  lemma UpWrapAddrOfWrapAddr(a: string, i: nat)
    ensures UpWrapAddr(WrapAddr(a, i)) == a <==> '-' !in a
  {
    if '-' !in a {
      UpWrapAddrPrefix(a, Strconv.Itoa(i));
    }
  }

  /** Splitting `a`, a '-' and `t` at '-' gives `a` back when `a` has no '-'. */
  lemma {:induction false} UpWrapAddrPrefix(a: string, t: string)
    requires '-' !in a
    ensures UpWrapAddr(a + "-" + t) == a
  {
    if a != [] {
      assert (a + "-" + t)[1..] == a[1..] + "-" + t;
      UpWrapAddrPrefix(a[1..], t);
    }
  }

  /** Distinct (address, copy) pairs give distinct virtual nodes: the decimal
      suffix holds no '-', so the last '-' of a node separates the two parts. */
  lemma WrapAddrInjective(a: string, i: nat, b: string, j: nat)
    requires WrapAddr(a, i) == WrapAddr(b, j)
    ensures a == b && i == j
  {
    var node := WrapAddr(a, i);
    var di, dj := Strconv.Itoa(i), Strconv.Itoa(j);
    assert node[|a|] == '-' && node[|b|] == '-';
    forall k | |a| < k < |node| ensures node[k] != '-' {
      assert node[k] == di[k - |a| - 1];
    }
    forall k | |b| < k < |node| ensures node[k] != '-' {
      assert node[k] == dj[k - |b| - 1];
    }
    assert |a| == |b|;
    assert a == node[..|a|] == b;
    assert di == node[|a| + 1..] == dj;
    Strconv.ItoaInjective(i, j);
  }

  /** The virtual nodes of the first `n` copies of `a`. */
  ghost function VirtualNodes(a: string, n: int): set<string> {
    set i: nat | i < n :: WrapAddr(a, i)
  }

  /** The ring the selector keeps for the book `m`: every copy of every address. */
  ghost function RingOf(m: map<string, AddrInfo>): set<string> {
    set k, i: nat | k in m && i < m[k].weight :: WrapAddr(k, i)
  }

  lemma VirtualNodesStep(a: string, n: nat)
    ensures VirtualNodes(a, n + 1) == VirtualNodes(a, n) + {WrapAddr(a, n)}
  {
  }

  /** Registering a new address adds exactly its virtual nodes to the ring. */
  lemma RingOfAdd(m: map<string, AddrInfo>, x: string, info: AddrInfo)
    requires x !in m && info.weight >= 0
    ensures RingOf(m[x := info]) == RingOf(m) + VirtualNodes(x, info.weight)
  {
    var m' := m[x := info];
    forall node | node in RingOf(m') ensures node in RingOf(m) + VirtualNodes(x, info.weight) {
      var k, i: nat :| k in m' && i < m'[k].weight && node == WrapAddr(k, i);
      if k != x {
        assert node in RingOf(m);
      }
    }
    forall node | node in RingOf(m) + VirtualNodes(x, info.weight) ensures node in RingOf(m') {
      if node in RingOf(m) {
        var k, i: nat :| k in m && i < m[k].weight && node == WrapAddr(k, i);
        assert k in m' && m'[k] == m[k];
      } else {
        var i: nat :| i < info.weight && node == WrapAddr(x, i);
        assert x in m' && m'[x] == info;
      }
    }
  }

  /** Unregistering an address removes exactly its virtual nodes from the ring. */
  lemma RingOfDelete(m: map<string, AddrInfo>, x: string)
    requires x in m && m[x].weight >= 0
    ensures RingOf(m - {x}) == RingOf(m) - VirtualNodes(x, m[x].weight)
  {
    var m' := m - {x};
    forall node | node in RingOf(m') ensures node in RingOf(m) - VirtualNodes(x, m[x].weight) {
      var k, i: nat :| k in m' && i < m'[k].weight && node == WrapAddr(k, i);
      assert k in m && node in RingOf(m);
      if node in VirtualNodes(x, m[x].weight) {
        var j: nat :| j < m[x].weight && node == WrapAddr(x, j);
        WrapAddrInjective(k, i, x, j);
      }
    }
    forall node | node in RingOf(m) - VirtualNodes(x, m[x].weight) ensures node in RingOf(m') {
      var k, i: nat :| k in m && i < m[k].weight && node == WrapAddr(k, i);
      assert WrapAddr(k, i) in VirtualNodes(k, m[k].weight);
      assert k in m' && m'[k] == m[k];
    }
  }

  /** The ring depends on the addresses and weights only, not on connection
      state or load. */
  lemma RingOfSameWeights(m: map<string, AddrInfo>, m': map<string, AddrInfo>)
    requires m'.Keys == m.Keys
    requires forall a :: a in m ==> m'[a].weight == m[a].weight
    ensures RingOf(m') == RingOf(m)
  {
    forall node | node in RingOf(m) ensures node in RingOf(m') {
      var k, i: nat :| k in m && i < m[k].weight && node == WrapAddr(k, i);
      assert k in m' && i < m'[k].weight;
    }
    forall node | node in RingOf(m') ensures node in RingOf(m) {
      var k, i: nat :| k in m' && i < m'[k].weight && node == WrapAddr(k, i);
      assert k in m && i < m[k].weight;
    }
  }

  /** When no registered address contains a '-', every node of the ring maps
      back to a registered address. */
  lemma RingNodeResolves(m: map<string, AddrInfo>, node: string)
    requires node in RingOf(m)
    requires forall k :: k in m ==> '-' !in k
    ensures UpWrapAddr(node) in m
  {
    var k, i: nat :| k in m && i < m[k].weight && node == WrapAddr(k, i);
    UpWrapAddrOfWrapAddr(k, i);
  }

  /** The consistent-hash ring, seen as the set of virtual node names it holds.
      Which node a key hashes to is not modelled: `Get` returns some node of a
      non-empty ring. */
  class HashRing {
    var nodes: set<string>

    constructor ()
      ensures nodes == {}
    {
      nodes := {};
    }

    method Add(node: string)
      modifies this
      ensures nodes == old(nodes) + {node}
    {
      nodes := nodes + {node};
    }

    method Remove(node: string)
      modifies this
      ensures nodes == old(nodes) - {node}
    {
      nodes := nodes - {node};
    }

    method Get(key: string) returns (node: string, ok: bool)
      ensures ok == (nodes != {})
      ensures ok ==> node in nodes
      ensures !ok ==> node == ""
    {
      if nodes == {} {
        return "", false;
      }
      node :| node in nodes;
      ok := true;
    }
  }

  /** A value stored in the call's context: only a string can serve as a
      routing key. */
  datatype ContextValue = Text(text: string) | NotText

  /** The routing key the call carries under `name`, if it is a string. */
  function RoutingKey(ctx: map<string, ContextValue>, name: string): (r: Option<string>)
    ensures r.Some? <==> name in ctx && ctx[name].Text?
    ensures r.Some? ==> r.value == ctx[name].text
  {
    if name in ctx then
      match ctx[name]
      case Text(t) => Some(t)
      case NotText => None
    else None
  }

  class KetamaSelector {
    const book: BaseSelector
    const ring: HashRing
    const ketamaKey: string

    /** The book's invariant, and the ring holds exactly the virtual nodes of
        the registered addresses. */
    ghost predicate Valid()
      reads this, book, ring
    {
      book.Valid() && ring.nodes == RingOf(book.addrMap)
    }

    /** `NewKetamaSelector`: an empty key name stands for the default one. */
    constructor (key: string)
      ensures Valid() && fresh(book) && fresh(ring)
      ensures ketamaKey == if key == "" then DefaultKetamaKey else key
      ensures book.addrs == [] && book.addrMap == map[] && ring.nodes == {}
    {
      ketamaKey := if key == "" then DefaultKetamaKey else key;
      book := new BaseSelector();
      ring := new HashRing();
    }

    /** The book's `Add`, and on success one ring node per copy of the address. */
    method Add(a: Address) returns (err: Option<Error>)
      requires Valid()
      modifies book, ring
      ensures Valid()
      ensures a.addr in old(book.addrs) ==>
        && err == Some(Sentinel(AddrExist))
        && book.addrs == old(book.addrs) && book.addrMap == old(book.addrMap)
        && ring.nodes == old(ring.nodes)
      ensures a.addr !in old(book.addrs) ==>
        && err == None
        && book.addrs == old(book.addrs) + Repeat(a.addr, WeightOf(a.metadata))
        && book.addrMap == old(book.addrMap)[a.addr := AddrInfo(a, WeightOf(a.metadata), false, 0)]
        && ring.nodes == old(ring.nodes) + VirtualNodes(a.addr, WeightOf(a.metadata))
    {
      InAddrsIffKey(book.addrs, book.addrMap, a.addr);
      err := book.Add(a);
      if err == None {
        var info := book.addrMap[a.addr];
        RingOfAdd(old(book.addrMap), a.addr, info);
        for i := 0 to info.weight
          invariant book.addrs == old(book.addrs) + Repeat(a.addr, WeightOf(a.metadata))
          invariant book.addrMap == old(book.addrMap)[a.addr := info] && book.Valid()
          invariant ring.nodes == old(ring.nodes) + VirtualNodes(a.addr, i)
        {
          VirtualNodesStep(a.addr, i);
          ring.Add(WrapAddr(a.addr, i));
        }
      }
    }

    /** The book's `Delete`, and on success the removal of the ring nodes of
        every copy the address had. */
    method Delete(a: Address) returns (err: Option<Error>)
      requires Valid()
      modifies book, ring
      ensures Valid()
      ensures a.addr !in old(book.addrs) ==>
        && err == Some(Sentinel(AddrDoesNotExist))
        && book.addrs == old(book.addrs) && book.addrMap == old(book.addrMap)
        && ring.nodes == old(ring.nodes)
      ensures a.addr in old(book.addrs) ==>
        && a.addr in old(book.addrMap)
        && err == None
        && book.addrs == RemoveFirstRun(old(book.addrs), a.addr)
        && book.addrMap == old(book.addrMap) - {a.addr}
        && ring.nodes == old(ring.nodes) - VirtualNodes(a.addr, old(book.addrMap)[a.addr].weight)
    {
      InAddrsIffKey(book.addrs, book.addrMap, a.addr);
      var ok := a.addr in book.addrMap;
      var weight := 0;
      if ok {
        assert RunOf(book.addrs, book.addrMap, a.addr);
        weight := book.addrMap[a.addr].weight;
        RingOfDelete(book.addrMap, a.addr);
      }
      err := book.Delete(a);
      if err == None {
        if ok {
          for i := 0 to weight
            invariant book.addrs == RemoveFirstRun(old(book.addrs), a.addr)
            invariant book.addrMap == old(book.addrMap) - {a.addr} && book.Valid()
            invariant ring.nodes == old(ring.nodes) - VirtualNodes(a.addr, i)
          {
            VirtualNodesStep(a.addr, i);
            ring.Remove(WrapAddr(a.addr, i));
          }
        }
      }
    }

    /** Routes the call by the string key found in its context under
        `ketamaKey`: the ring node of that key (`target`, the ring's choice)
        names an address, which is returned, with its load raised by one, when
        it is in the list and connected. Every failure after the empty-list
        check is reported as `NoAvailableAddress`: the missing key and the empty
        ring set an error that the final return overrides. */
    method Get(ctx: map<string, ContextValue>) returns (addr: Address, err: Option<Error>, ghost target: Option<string>)
      requires Valid()
      modifies book
      ensures Valid() && book.addrs == old(book.addrs)
      ensures |old(book.addrs)| == 0 ==>
        && addr == NoAddress && err == Some(Sentinel(AddrListEmpty))
        && book.addrMap == old(book.addrMap) && target == None
      ensures |old(book.addrs)| > 0 ==>
        && (target.Some? <==> RoutingKey(ctx, ketamaKey).Some? && ring.nodes != {})
        && (target.Some? ==> target.value in ring.nodes)
      ensures |old(book.addrs)| > 0 ==>
        if target.Some? && UpWrapAddr(target.value) in old(book.addrs)
           && IsConnected(old(book.addrMap), UpWrapAddr(target.value))
        then
          && addr == old(book.addrMap)[UpWrapAddr(target.value)].address && err == None
          && book.addrMap == AddLoad(old(book.addrMap), UpWrapAddr(target.value), 1)
        else
          addr == NoAddress && err == Some(Sentinel(NoAvailableAddress)) && book.addrMap == old(book.addrMap)
    {
      target := None;
      addr := NoAddress;
      if |book.addrs| == 0 {
        err := Some(Sentinel(AddrListEmpty));
        return;
      }
      var key := RoutingKey(ctx, ketamaKey);
      if key.Some? {
        var node, ok := ring.Get(key.value);
        if ok {
          target := Some(node);
          var targetAddr := UpWrapAddr(node);
          for i := 0 to |book.addrs|
            invariant book.addrMap == old(book.addrMap)
            invariant forall j :: 0 <= j < i ==> !(book.addrs[j] == targetAddr && IsConnected(book.addrMap, targetAddr))
          {
            var v := book.addrs[i];
            if v == targetAddr {
              if v in book.addrMap {
                var info := book.addrMap[v];
                if info.connected {
                  StateChangeKeepsRuns(book.addrs, book.addrMap, AddLoad(book.addrMap, v, 1));
                  RingOfSameWeights(book.addrMap, AddLoad(book.addrMap, v, 1));
                  book.addrMap := AddLoad(book.addrMap, v, 1);
                  return info.address, None, target;
                }
              }
            }
          }
        } else {
          err := Some(Sentinel(AddrDoesNotExist));
        }
      } else {
        err := Some(Sentinel(KetamaKeyEmpty));
      }
      err := Some(Sentinel(NoAvailableAddress));
    }
  }
}
