/** The weighted address book that every selector embeds (`BaseSelector`),
    the error values of the package, and the circular scan shared by the
    random and round-robin strategies. */
module Selector {
  import opened Wrappers
  import Strconv

  /** `grpc.Address`: the endpoint string and its metadata. The metadata is
      `Some(m)` when it holds a `*map[string]string`, `None` for anything else. */
  datatype Address = Address(addr: string, metadata: Option<map<string, string>>)

  /** The zero `grpc.Address` a failed `Get` returns. */
  const NoAddress := Address("", None)

  /** `AddrInfo`: what the book records per endpoint. */
  datatype AddrInfo = AddrInfo(address: Address, weight: int, connected: bool, load: int)

  datatype ErrorKind = AddrListEmpty | AddrExist | AddrDoesNotExist | NoAvailableAddress | KetamaKeyEmpty

  /** Go compares errors by identity: `Sentinel(k)` is one of the package-level
      error variables, `Adhoc(text)` a fresh `errors.New(text)`, equal to no
      sentinel even when the text is the same. */
  datatype Error = Sentinel(kind: ErrorKind) | Adhoc(text: string)

  /** The text of an error: the sentinels' fixed texts, or the text a fresh
      error was made with. */
  function Message(e: Error): (r: string)
    ensures e.Adhoc? ==> r == e.text
  {
    match e
    case Adhoc(text) => text
    case Sentinel(AddrListEmpty) => "addr list is emtpy"
    case Sentinel(AddrExist) => "addr exist"
    case Sentinel(AddrDoesNotExist) => "addr does not exist"
    case Sentinel(NoAvailableAddress) => "no available address"
    case Sentinel(KetamaKeyEmpty) => "ketama key is empty"
  }

  /** Distinct sentinels have distinct texts. */
  lemma SentinelMessagesDistinct(a: ErrorKind, b: ErrorKind)
    ensures Message(Sentinel(a)) == Message(Sentinel(b)) <==> a == b
  {
  }

  /** The weight `Add` gives an endpoint: the "weight" metadata entry when
      `strconv.Atoi` accepts it and it is positive, 1 otherwise. */
  function WeightOf(md: Option<map<string, string>>): (w: int)
    ensures w >= 1
    ensures w != 1 ==> md.Some? && "weight" in md.value && Strconv.Atoi(md.value["weight"]) == Some(w)
  {
    if md.Some? && "weight" in md.value then
      match Strconv.Atoi(md.value["weight"])
      case Some(n) => if n > 0 then n else 1
      case None => 1
    else 1
  }

  /** Any "weight" entry that `strconv.Atoi` reads as a positive number, such
      as "3", "+3" or "007", is the weight. */
  lemma WeightFromAtoi(md: map<string, string>, n: int)
    requires "weight" in md && Strconv.Atoi(md["weight"]) == Some(n) && n >= 1
    ensures WeightOf(Some(md)) == n
  {
  }

  /** In particular a positive weight written in plain decimal is taken as it is written. */
  lemma WeightFromDecimal(md: map<string, string>, n: nat)
    requires 1 <= n <= Strconv.MaxInt
    requires "weight" in md && md["weight"] == Strconv.Itoa(n)
    ensures WeightOf(Some(md)) == n
  {
    Strconv.AtoiItoa(n);
    WeightFromAtoi(md, n);
  }

  /** Without a usable hint the weight is 1. */
  lemma WeightDefault(md: Option<map<string, string>>)
    requires md.None? || "weight" !in md.value || Strconv.Atoi(md.value["weight"]).None?
             || Strconv.Atoi(md.value["weight"]).value <= 0
    ensures WeightOf(md) == 1
  {
  }

  function Repeat(x: string, n: nat): (r: seq<string>)
    ensures |r| == n && forall i :: 0 <= i < n ==> r[i] == x
  {
    if n == 0 then [] else Repeat(x, n - 1) + [x]
  }

  lemma {:induction false} RepeatCount(x: string, n: nat, y: string)
    ensures multiset(Repeat(x, n))[y] == if y == x then n else 0
  {
    if n > 0 {
      RepeatCount(x, n - 1, y);
    }
  }

  /** All copies of `x` in `s` stand next to each other. */
  ghost predicate Contiguous(s: seq<string>, x: string) {
    forall i, j, k :: 0 <= i < j < k < |s| && s[i] == x && s[k] == x ==> s[j] == x
  }

  /** What the invariant says about the key `a`: its record carries its own
      address and a positive weight, and its copies in `addrs` are exactly
      `weight` entries standing next to each other. */
  ghost predicate RunOf(addrs: seq<string>, addrMap: map<string, AddrInfo>, a: string) {
    && a in addrMap
    && addrMap[a].address.addr == a
    && addrMap[a].weight >= 1
    && multiset(addrs)[a] == addrMap[a].weight
    && Contiguous(addrs, a)
  }

  /** The central invariant of the book: every element of `addrs` is a key of
      `addrMap`, and each key's copies form exactly one run of `Weight` entries.
      (The per-key part is instantiated only where a proof names `RunOf`.) */
  ghost predicate WeightedRuns(addrs: seq<string>, addrMap: map<string, AddrInfo>) {
    && (forall i :: 0 <= i < |addrs| ==> addrs[i] in addrMap)
    && (forall a {:trigger RunOf(addrs, addrMap, a)} :: a in addrMap ==> RunOf(addrs, addrMap, a))
  }

  /** Under the invariant, an address occurs in `addrs` exactly when it is a key. */
  lemma InAddrsIffKey(addrs: seq<string>, addrMap: map<string, AddrInfo>, a: string)
    requires WeightedRuns(addrs, addrMap)
    ensures a in addrs <==> a in addrMap
  {
    if a in addrMap {
      assert RunOf(addrs, addrMap, a);
      assert multiset(addrs)[a] >= 1;
    }
  }

  /** Appending a new address's run keeps the invariant. */
  lemma AddKeepsRuns(addrs: seq<string>, addrMap: map<string, AddrInfo>, a: Address)
    requires WeightedRuns(addrs, addrMap)
    requires a.addr !in addrs
    ensures WeightedRuns(addrs + Repeat(a.addr, WeightOf(a.metadata)),
                         addrMap[a.addr := AddrInfo(a, WeightOf(a.metadata), false, 0)])
  {
    var x, w := a.addr, WeightOf(a.metadata);
    var s', m' := addrs + Repeat(x, w), addrMap[x := AddrInfo(a, w, false, 0)];
    forall y | y in m'
      ensures RunOf(s', m', y)
    {
      RepeatCount(x, w, y);
      if y == x {
        assert multiset(addrs)[x] == 0;
      } else {
        assert RunOf(addrs, addrMap, y);
        forall i, j, k | 0 <= i < j < k < |s'| && s'[i] == y && s'[k] == y
          ensures s'[j] == y
        {
          assert k < |addrs|;
          assert addrs[i] == y && addrs[k] == y;
        }
      }
    }
  }

  /** `s[f..e]` is the first run of `x` in `s`: no `x` before `f`, only `x`
      inside, and the element at `e` (if any) is not `x`. */
  ghost predicate IsFirstRun(s: seq<string>, x: string, f: int, e: int) {
    && 0 <= f < e <= |s|
    && (forall j :: 0 <= j < f ==> s[j] != x)
    && (forall j :: f <= j < e ==> s[j] == x)
    && (e == |s| || s[e] != x)
  }

  /** Reference definition of `Delete`'s effect on `addrs`: skip the leading
      non-matching elements, drop the first run of `x`, keep the rest. */
  function RemoveFirstRun(s: seq<string>, x: string): seq<string> {
    if s == [] then []
    else if s[0] == x then DropRun(s, x)
    else [s[0]] + RemoveFirstRun(s[1..], x)
  }

  function DropRun(s: seq<string>, x: string): seq<string> {
    if s != [] && s[0] == x then DropRun(s[1..], x) else s
  }

  lemma {:induction false} DropRunAt(s: seq<string>, x: string, e: int)
    requires 0 <= e <= |s| && (forall j :: 0 <= j < e ==> s[j] == x) && (e == |s| || s[e] != x)
    ensures DropRun(s, x) == s[e..]
  {
    if e > 0 {
      DropRunAt(s[1..], x, e - 1);
      assert s[1..][e - 1..] == s[e..];
    }
  }

  /** The index loop of `Delete` computes `RemoveFirstRun`. */
  lemma {:induction false} RemoveFirstRunSplit(s: seq<string>, x: string, f: int, e: int)
    requires IsFirstRun(s, x, f, e)
    ensures RemoveFirstRun(s, x) == s[..f] + s[e..]
  {
    if f == 0 {
      DropRunAt(s, x, e);
    } else {
      RemoveFirstRunSplit(s[1..], x, f - 1, e - 1);
      assert s[1..][..f - 1] == s[1..f];
      assert s[1..][e - 1..] == s[e..];
      assert s[..f] == [s[0]] + s[1..f];
    }
  }

  /** A first run of a contiguous element holds all its copies. */
  lemma FirstRunHoldsAll(s: seq<string>, x: string, f: int, e: int)
    requires Contiguous(s, x) && IsFirstRun(s, x, f, e)
    ensures x !in s[..f] + s[e..]
  {
    forall k | e <= k < |s| ensures s[k] != x {
      assert s[f] == x;
    }
  }

  /** Cutting a slice out of a sequence keeps every other element contiguous. */
  lemma CutKeepsContiguous(s: seq<string>, y: string, f: int, e: int)
    requires Contiguous(s, y) && 0 <= f <= e <= |s|
    ensures Contiguous(s[..f] + s[e..], y)
  {
    var s', d := s[..f] + s[e..], e - f;
    forall i, j, k | 0 <= i < j < k < |s'| && s'[i] == y && s'[k] == y
      ensures s'[j] == y
    {
      var oi, oj, ok := (if i < f then i else i + d), (if j < f then j else j + d), (if k < f then k else k + d);
      assert s'[i] == s[oi] && s'[j] == s[oj] && s'[k] == s[ok];
    }
  }

  /** Cutting out a run of `x` keeps the count of every other element. */
  lemma CutKeepsCount(s: seq<string>, x: string, f: int, e: int, y: string)
    requires 0 <= f <= e <= |s| && (forall j :: f <= j < e ==> s[j] == x) && y != x
    ensures multiset(s[..f] + s[e..])[y] == multiset(s)[y]
  {
    assert s == s[..f] + s[f..e] + s[e..];
    assert s[f..e] == Repeat(x, e - f);
    RepeatCount(x, e - f, y);
  }

  /** Removing the first run of a key keeps the invariant for the remaining keys
      and, because the run was the only one, leaves no copy of the key behind. */
  lemma DeleteKeepsRuns(s: seq<string>, m: map<string, AddrInfo>, x: string, f: int, e: int)
    requires WeightedRuns(s, m)
    requires IsFirstRun(s, x, f, e)
    ensures x !in s[..f] + s[e..]
    ensures WeightedRuns(s[..f] + s[e..], m - {x})
  {
    var s' := s[..f] + s[e..];
    assert s[f] == x && RunOf(s, m, x);
    FirstRunHoldsAll(s, x, f, e);
    forall i | 0 <= i < |s'| ensures s'[i] in m - {x} {
      assert s'[i] == (if i < f then s[i] else s[i + e - f]);
    }
    forall y | y in m - {x}
      ensures RunOf(s', m - {x}, y)
    {
      assert RunOf(s, m, y);
      CutKeepsCount(s, x, f, e, y);
      CutKeepsContiguous(s, y, f, e);
    }
  }

  /** Under the invariant, deleting the first run deletes every copy. */
  lemma RemoveFirstRunRemovesAll(s: seq<string>, m: map<string, AddrInfo>, x: string, f: int, e: int)
    requires WeightedRuns(s, m)
    requires IsFirstRun(s, x, f, e)
    ensures x !in RemoveFirstRun(s, x)
    ensures multiset(RemoveFirstRun(s, x)) == multiset(s)[x := 0]
  {
    RemoveFirstRunSplit(s, x, f, e);
    DeleteKeepsRuns(s, m, x, f, e);
    var s' := s[..f] + s[e..];
    assert s == s[..f] + s[f..e] + s[e..];
    assert s[f..e] == Repeat(x, e - f);
    forall y ensures multiset(s')[y] == multiset(s)[x := 0][y] {
      RepeatCount(x, e - f, y);
    }
  }

  predicate IsConnected(m: map<string, AddrInfo>, a: string) {
    a in m && m[a].connected
  }

  /** The connected keys of `m`. */
  ghost function ConnectedKeys(m: map<string, AddrInfo>): set<string> {
    ConnectedIn(m, m.Keys)
  }

  /** The connected keys among `ks`. */
  ghost function ConnectedIn(m: map<string, AddrInfo>, ks: set<string>): set<string> {
    set a | a in ks && a in m && m[a].connected
  }

  lemma ConnectedInStep(m: map<string, AddrInfo>, seen: set<string>, k: string)
    requires k !in seen
    ensures ConnectedIn(m, seen + {k}) == if IsConnected(m, k) then ConnectedIn(m, seen) + {k} else ConnectedIn(m, seen)
    ensures IsConnected(m, k) ==> |ConnectedIn(m, seen + {k})| == |ConnectedIn(m, seen)| + 1
  {
  }

  function Min(a: int, b: int): int {
    if a < b then a else b
  }

  /** `m` with the load of `a` changed by `delta`. */
  function AddLoad(m: map<string, AddrInfo>, a: string, delta: int): map<string, AddrInfo>
    requires a in m
  {
    m[a := m[a].(load := m[a].load + delta)]
  }

  function SetConnected(m: map<string, AddrInfo>, a: string, c: bool): map<string, AddrInfo>
    requires a in m
  {
    m[a := m[a].(connected := c)]
  }

  /** Changing connection flags or loads leaves the runs as they are. */
  lemma StateChangeKeepsRuns(s: seq<string>, m: map<string, AddrInfo>, m': map<string, AddrInfo>)
    requires WeightedRuns(s, m)
    requires m'.Keys == m.Keys
    requires forall a :: a in m ==> m'[a].address == m[a].address && m'[a].weight == m[a].weight
    ensures WeightedRuns(s, m')
  {
    forall a | a in m' ensures RunOf(s, m', a) {
      assert RunOf(s, m, a);
    }
  }

  /** A subset is no larger than its superset; used by the connected count of `Up`. */
  lemma {:induction false} SubsetCard(a: set<string>, b: set<string>)
    requires a <= b
    ensures |a| <= |b|
  {
    if a != {} {
      var x :| x in a;
      SubsetCard(a - {x}, b - {x});
    }
  }

  lemma ModNext(x: int, n: int)
    requires 0 <= x < n
    ensures (x + 1) % n == if x + 1 == n then 0 else x + 1
  {
    if x + 1 == n {
      assert (x + 1) % n == n % n;
    }
  }

  lemma ModWrap(x: int, n: int)
    requires 0 <= x < 2 * n
    ensures x % n == if x < n then x else x - n
  {
    if x >= n {
      assert x == n + (x - n) && 0 <= x - n < n;
    }
  }

  /** The entry `d` places after `start`, going round the end of `s`. */
  function Circ(s: seq<string>, start: nat, d: nat): string
    requires |s| > 0
  {
    s[(start + d) % |s|]
  }

  /** The circular scan of the random and round-robin strategies: the offset
      `r` in `[d, |s|)` of the first entry, in the order `start + d, start + d + 1, ...`
      taken mod `|s|`, whose address is a connected key of `m`; None when no
      entry at those offsets is. */
  function FirstConnected(s: seq<string>, m: map<string, AddrInfo>, start: nat, d: nat): (r: Option<nat>)
    requires start < |s|
    ensures r.Some? ==> d <= r.value < |s| && IsConnected(m, Circ(s, start, r.value))
    ensures r.Some? ==> forall e :: d <= e < r.value ==> !IsConnected(m, Circ(s, start, e))
    ensures r.None? ==> forall e :: d <= e < |s| ==> !IsConnected(m, Circ(s, start, e))
    decreases |s| - d
  {
    if d >= |s| then None
    else if IsConnected(m, Circ(s, start, d)) then Some(d)
    else FirstConnected(s, m, start, d + 1)
  }

  /** The scan visits every index once, so it finds a connected entry whenever
      there is one. */
  lemma ScanFindsConnected(s: seq<string>, m: map<string, AddrInfo>, start: nat, i: nat)
    requires start < |s| && i < |s| && IsConnected(m, s[i])
    ensures FirstConnected(s, m, start, 0).Some?
  {
    var d := if start <= i then i - start else i + |s| - start;
    ModWrap(start + d, |s|);
    assert Circ(s, start, d) == s[i];
  }

  /** `BaseSelector`: the weighted address list and the per-address record. */
  class BaseSelector {
    var addrs: seq<string>
    var addrMap: map<string, AddrInfo>

    ghost predicate Valid()
      reads this
    {
      WeightedRuns(addrs, addrMap)
    }

    /** The `BaseSelector{addrMap: make(...)}` literal the selectors start from. */
    constructor ()
      ensures Valid() && addrs == [] && addrMap == map[]
    {
      addrs := [];
      addrMap := map[];
    }

    /** Registers an endpoint: refused when its address is already in the list,
        otherwise recorded as unconnected with no load and `Weight` copies
        appended to the list. */
    method Add(a: Address) returns (err: Option<Error>)
      requires Valid()
      modifies this
      ensures Valid()
      ensures a.addr in old(addrs) ==>
        err == Some(Sentinel(AddrExist)) && addrs == old(addrs) && addrMap == old(addrMap)
      ensures a.addr !in old(addrs) ==>
        && err == None
        && addrs == old(addrs) + Repeat(a.addr, WeightOf(a.metadata))
        && addrMap == old(addrMap)[a.addr := AddrInfo(a, WeightOf(a.metadata), false, 0)]
    {
      for i := 0 to |addrs|
        invariant forall j :: 0 <= j < i ==> addrs[j] != a.addr
      {
        if a.addr == addrs[i] {
          return Some(Sentinel(AddrExist));
        }
      }
      var weight := WeightOf(a.metadata);
      AddKeepsRuns(addrs, addrMap, a);
      addrMap := addrMap[a.addr := AddrInfo(a, weight, false, 0)];
      for i := 0 to weight
        invariant addrs == old(addrs) + Repeat(a.addr, i)
        invariant addrMap == old(addrMap)[a.addr := AddrInfo(a, weight, false, 0)]
      {
        addrs := addrs + [a.addr];
      }
      return None;
    }

    /** Unregisters an endpoint: refused when its address is not in the list,
        otherwise its first run is cut out of the list and its record dropped. */
    method Delete(a: Address) returns (err: Option<Error>)
      requires Valid()
      modifies this
      ensures Valid()
      ensures a.addr !in old(addrs) ==>
        err == Some(Sentinel(AddrDoesNotExist)) && addrs == old(addrs) && addrMap == old(addrMap)
      ensures a.addr in old(addrs) ==>
        && err == None
        && addrs == RemoveFirstRun(old(addrs), a.addr)
        && a.addr !in addrs
        && addrMap == old(addrMap) - {a.addr}
    {
      var firstIdx, lastIdx := -1, -1;
      var i := 0;
      while i < |addrs|
        invariant 0 <= i <= |addrs|
        invariant firstIdx == -1 <==> lastIdx == -1
        invariant firstIdx == -1 ==> forall j :: 0 <= j < i ==> addrs[j] != a.addr
        invariant firstIdx != -1 ==>
          && 0 <= firstIdx <= lastIdx && lastIdx == i - 1
          && (forall j :: 0 <= j < firstIdx ==> addrs[j] != a.addr)
          && (forall j :: firstIdx <= j <= lastIdx ==> addrs[j] == a.addr)
      {
        if a.addr == addrs[i] {
          if firstIdx == -1 {
            firstIdx := i;
          }
          lastIdx := i;
        } else if lastIdx != -1 {
          break;
        }
        i := i + 1;
      }
      if firstIdx >= 0 && lastIdx >= 0 {
        assert addrs[firstIdx] == a.addr;
        RemoveFirstRunSplit(addrs, a.addr, firstIdx, lastIdx + 1);
        DeleteKeepsRuns(addrs, addrMap, a.addr, firstIdx, lastIdx + 1);
        addrs := addrs[..firstIdx] + addrs[lastIdx + 1..];
        addrMap := addrMap - {a.addr};
        return None;
      }
      return Some(Sentinel(AddrDoesNotExist));
    }

    /** Marks an endpoint connected. An already connected one is reported as
        `(0, true)` untouched; otherwise the flag is set when the address is
        known, and, known or not, the connected records are counted, stopping
        once two are seen. */
    method Up(a: Address) returns (cnt: int, connected: bool)
      requires Valid()
      modifies this
      ensures Valid() && addrs == old(addrs)
      ensures IsConnected(old(addrMap), a.addr) ==>
        cnt == 0 && connected && addrMap == old(addrMap)
      ensures !IsConnected(old(addrMap), a.addr) ==>
        && !connected
        && addrMap == (if a.addr in old(addrMap) then SetConnected(old(addrMap), a.addr, true) else old(addrMap))
        && cnt == Min(|ConnectedKeys(addrMap)|, 2)
    {
      cnt := 0;
      if a.addr in addrMap {
        var info := addrMap[a.addr];
        if info.connected {
          return cnt, true;
        }
        StateChangeKeepsRuns(addrs, addrMap, SetConnected(addrMap, a.addr, true));
        addrMap := SetConnected(addrMap, a.addr, true);
      }
      cnt := CountConnected();
      return cnt, false;
    }

    /** The loop of `Up`: counts the connected records in map order, stopping
        once two are seen. */
    method CountConnected() returns (cnt: int)
      ensures cnt == Min(|ConnectedKeys(addrMap)|, 2)
    {
      cnt := 0;
      var rest := addrMap.Keys;
      ghost var seen: set<string> := {};
      while rest != {}
        invariant rest + seen == addrMap.Keys && rest !! seen
        invariant cnt == |ConnectedIn(addrMap, seen)| && cnt <= 1
        decreases |rest|
      {
        var k :| k in rest;
        ConnectedInStep(addrMap, seen, k);
        rest := rest - {k};
        seen := seen + {k};
        if addrMap[k].connected {
          cnt := cnt + 1;
          if cnt > 1 {
            SubsetCard(ConnectedIn(addrMap, seen), ConnectedKeys(addrMap));
            return;
          }
        }
      }
      assert seen == addrMap.Keys;
    }

    /** Marks a known endpoint unconnected; never fails. */
    method Down(a: Address) returns (err: Option<Error>)
      requires Valid()
      modifies this
      ensures Valid() && addrs == old(addrs) && err == None
      ensures addrMap == if a.addr in old(addrMap) then SetConnected(old(addrMap), a.addr, false) else old(addrMap)
    {
      if a.addr in addrMap {
        StateChangeKeepsRuns(addrs, addrMap, SetConnected(addrMap, a.addr, false));
        addrMap := SetConnected(addrMap, a.addr, false);
      }
      return None;
    }

    /** One endpoint per record of the book, each with the address it was added with. */
    method AddrList() returns (list: seq<Address>)
      requires Valid()
      ensures |list| == |addrMap|
      ensures forall i :: 0 <= i < |list| ==> list[i].addr in addrMap && addrMap[list[i].addr].address == list[i]
      ensures forall i, j :: 0 <= i < j < |list| ==> list[i].addr != list[j].addr
      ensures forall a :: a in addrMap ==> addrMap[a].address in list
    {
      list := [];
      var rest := addrMap.Keys;
      while rest != {}
        invariant rest <= addrMap.Keys
        invariant |list| + |rest| == |addrMap.Keys|
        invariant forall i :: 0 <= i < |list| ==>
          list[i].addr in addrMap && list[i].addr !in rest && addrMap[list[i].addr].address == list[i]
        invariant forall i, j :: 0 <= i < j < |list| ==> list[i].addr != list[j].addr
        invariant forall a :: a in addrMap && a !in rest ==> addrMap[a].address in list
        decreases |rest|
      {
        var k :| k in rest;
        assert RunOf(addrs, addrMap, k);
        list := list + [addrMap[k].address];
        rest := rest - {k};
      }
    }

    /** The base strategy selects nothing: the zero address and no error. */
    method Get() returns (addr: Address, err: Option<Error>)
      ensures addr == NoAddress && err == None
    {
      return NoAddress, None;
    }

    /** Releases one unit of load of a known endpoint (it may go negative); never fails. */
    method Put(a: string) returns (err: Option<Error>)
      requires Valid()
      modifies this
      ensures Valid() && addrs == old(addrs) && err == None
      ensures addrMap == if a in old(addrMap) then AddLoad(old(addrMap), a, -1) else old(addrMap)
    {
      if a in addrMap {
        StateChangeKeepsRuns(addrs, addrMap, AddLoad(addrMap, a, -1));
        addrMap := AddLoad(addrMap, a, -1);
      }
      return None;
    }
  }
}
