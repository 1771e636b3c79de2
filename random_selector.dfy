/** `RandomSelector`: a circular scan of the weighted list from a random start. */
module Random {
  import opened Wrappers
  import opened Selector

  class RandomSelector {
    const book: BaseSelector

    constructor ()
      ensures fresh(book) && book.Valid() && book.addrs == [] && book.addrMap == map[]
    {
      book := new BaseSelector();
    }

    /** `rnd` stands for the generator's `r.Int()`, a non-negative int; the
        scan starts at `rnd % size` and returns the first connected entry,
        whose load it raises by one. */
    method Get(rnd: nat) returns (addr: Address, err: Option<Error>)
      requires book.Valid()
      modifies book
      ensures book.Valid() && book.addrs == old(book.addrs)
      ensures |old(book.addrs)| == 0 ==>
        && addr == NoAddress && book.addrMap == old(book.addrMap)
        && err.Some? && err.value != Sentinel(AddrListEmpty)
        && Message(err.value) == Message(Sentinel(AddrListEmpty))
      ensures |old(book.addrs)| > 0 ==>
        var s, m := old(book.addrs), old(book.addrMap);
        var idx := rnd % |s|;
        match FirstConnected(s, m, idx, 0)
        case Some(d) =>
          var a := Circ(s, idx, d);
          addr == m[a].address && err == None && book.addrMap == AddLoad(m, a, 1)
        case None =>
          addr == NoAddress && err == Some(Sentinel(NoAvailableAddress)) && book.addrMap == m
    {
      if |book.addrs| == 0 {
        return NoAddress, Some(Adhoc("addr list is emtpy"));
      }
      var size := |book.addrs|;
      var idx := rnd % size;
      for i := 0 to size
        invariant FirstConnected(book.addrs, book.addrMap, idx, 0) == FirstConnected(book.addrs, book.addrMap, idx, i)
      {
        var a := book.addrs[(idx + i) % size];
        if a in book.addrMap {
          var info := book.addrMap[a];
          if info.connected {
            StateChangeKeepsRuns(book.addrs, book.addrMap, AddLoad(book.addrMap, a, 1));
            book.addrMap := AddLoad(book.addrMap, a, 1);
            return info.address, None;
          }
        }
      }
      return NoAddress, Some(Sentinel(NoAvailableAddress));
    }
  }
}
