/** The etcd watcher of the discovery registry: it turns the watch stream's
    put and delete records into naming updates, suppressing repeated puts of
    a key within a heartbeat window, and it decodes the entries of a range
    read. The value decoder is a parameter. */
module EtcdWatcher {
  import opened Wrappers

  newtype byte = x: int | 0 <= x < 256

  /** What a registered server stores under its key. */
  datatype NodeData = NodeData(addr: string, metadata: map<string, string>)

  /** The kind of a watch event. */
  datatype EventType = PUT | DELETE

  /** One record of the watch stream, with the time (in nanoseconds) at which
      the watcher handles it. */
  datatype Record = Record(kind: EventType, key: string, value: seq<byte>, now: int)

  datatype Op = Add | Delete

  /** A naming update; its metadata is that of the decoded node, or the empty
      map for a delete. */
  datatype Update = Update(op: Op, addr: string, metadata: map<string, string>)

  /** 300 seconds, in nanoseconds. */
  const Window: int := 300 * 1_000_000_000

  /** The heartbeat map after one record, and the updates the record emits. */
  datatype StepResult = StepResult(hbTimes: map<string, int>, out: seq<Update>)

  /** The handling of one record: a put that decodes emits an `Add` when its
      key has no heartbeat or its heartbeat is older than the window, and
      then stamps the key; a delete forgets the key and emits a `Delete`
      naming the raw key. */
  function Step(hb: map<string, int>, rec: Record, decode: seq<byte> -> Option<NodeData>): (r: StepResult)
    ensures |r.out| <= 1
    ensures r.hbTimes.Keys <= hb.Keys + {rec.key}
    ensures forall k :: k in hb && k != rec.key ==> k in r.hbTimes && r.hbTimes[k] == hb[k]
  {
    match rec.kind
    case PUT =>
      (match decode(rec.value)
       case None => StepResult(hb, [])
       case Some(nd) =>
         if rec.key !in hb || rec.now - hb[rec.key] > Window then
           StepResult(hb[rec.key := rec.now], [Update(Add, nd.addr, nd.metadata)])
         else
           StepResult(hb, []))
    case DELETE =>
      StepResult(hb - {rec.key}, [Update(Delete, rec.key, map[])])
  }

  /** The heartbeat map and the emitted updates after handling `recs` in order. */
  function Replay(hb: map<string, int>, recs: seq<Record>, decode: seq<byte> -> Option<NodeData>): (r: StepResult)
    ensures |r.out| <= |recs|
  {
    if recs == [] then StepResult(hb, [])
    else
      var prev := Replay(hb, recs[..|recs| - 1], decode);
      var last := Step(prev.hbTimes, recs[|recs| - 1], decode);
      StepResult(last.hbTimes, prev.out + last.out)
  }

  /** A put whose value does not decode changes nothing and emits nothing. */
  lemma PutUndecodable(hb: map<string, int>, rec: Record, decode: seq<byte> -> Option<NodeData>)
    requires rec.kind == PUT && decode(rec.value).None?
    ensures Step(hb, rec, decode) == StepResult(hb, [])
  {
  }

  /** A put for a key without heartbeat emits one `Add` with the decoded node
      and stamps the key with the current time. */
  lemma PutFresh(hb: map<string, int>, rec: Record, decode: seq<byte> -> Option<NodeData>)
    requires rec.kind == PUT && decode(rec.value).Some? && rec.key !in hb
    ensures var nd := decode(rec.value).value;
      Step(hb, rec, decode) == StepResult(hb[rec.key := rec.now], [Update(Add, nd.addr, nd.metadata)])
  {
  }

  /** A put for a key whose heartbeat is at most the window old is suppressed,
      and the heartbeat is not refreshed; one strictly older than the window
      emits one `Add` and refreshes the heartbeat. */
  lemma PutKnown(hb: map<string, int>, rec: Record, decode: seq<byte> -> Option<NodeData>)
    requires rec.kind == PUT && decode(rec.value).Some? && rec.key in hb
    ensures rec.now - hb[rec.key] <= Window ==> Step(hb, rec, decode) == StepResult(hb, [])
    ensures rec.now - hb[rec.key] > Window ==>
      var nd := decode(rec.value).value;
      Step(hb, rec, decode) == StepResult(hb[rec.key := rec.now], [Update(Add, nd.addr, nd.metadata)])
  {
  }

  /** A delete always forgets the key and emits exactly one `Delete` for it. */
  lemma DeleteAlwaysEmits(hb: map<string, int>, rec: Record, decode: seq<byte> -> Option<NodeData>)
    requires rec.kind == DELETE
    ensures Step(hb, rec, decode).out == [Update(Delete, rec.key, map[])]
    ensures rec.key !in Step(hb, rec, decode).hbTimes
    ensures Step(hb, rec, decode).hbTimes == hb - {rec.key}
  {
  }

  /** Handling `a` and then `b` is handling `a + b`: updates come out in
      record order. */
  lemma {:induction false} ReplayAppend(hb: map<string, int>, a: seq<Record>, b: seq<Record>, decode: seq<byte> -> Option<NodeData>)
    ensures var first := Replay(hb, a, decode);
      var second := Replay(first.hbTimes, b, decode);
      Replay(hb, a + b, decode) == StepResult(second.hbTimes, first.out + second.out)
  {
    if b == [] {
      assert a + b == a;
    } else {
      var b' := b[..|b| - 1];
      assert (a + b)[..|a + b| - 1] == a + b';
      assert (a + b)[|a + b| - 1] == b[|b| - 1];
      ReplayAppend(hb, a, b', decode);
    }
  }

  /** Two decodable puts of one key, the second within the window of the
      first, emit at most one `Add` between them, and exactly one when the key
      had no heartbeat before. */
  lemma DuplicatePutSuppressed(hb: map<string, int>, r1: Record, r2: Record, decode: seq<byte> -> Option<NodeData>)
    requires r1.kind == PUT && r2.kind == PUT && r1.key == r2.key
    requires decode(r1.value).Some? && decode(r2.value).Some?
    requires r2.now - r1.now <= Window
    ensures |Replay(hb, [r1, r2], decode).out| <= 1
    ensures r1.key !in hb ==> |Replay(hb, [r1, r2], decode).out| == 1
  {
    assert [r1, r2][..1] == [r1];
    assert [r1][..0] == [];
    var s1 := Step(hb, r1, decode);
    assert Replay(hb, [r1], decode) == StepResult(s1.hbTimes, s1.out);
    var s2 := Step(s1.hbTimes, r2, decode);
    assert Replay(hb, [r1, r2], decode).out == s1.out + s2.out;
    assert s1.out != [] ==> s1.hbTimes[r1.key] == r1.now && s2.out == [];
  }

  /** A delete followed by a decodable put of the same key always emits the
      `Delete` and then an `Add`: the delete clears the heartbeat. */
  lemma DeleteThenPut(hb: map<string, int>, r1: Record, r2: Record, decode: seq<byte> -> Option<NodeData>)
    requires r1.kind == DELETE && r2.kind == PUT && r1.key == r2.key
    requires decode(r2.value).Some?
    ensures var nd := decode(r2.value).value;
      Replay(hb, [r1, r2], decode).out == [Update(Delete, r1.key, map[]), Update(Add, nd.addr, nd.metadata)]
  {
    assert [r1, r2][..1] == [r1];
    assert [r1][..0] == [];
  }

  /** All records of the watch responses `resps`, in order. */
  function Flatten(resps: seq<seq<Record>>): seq<Record> {
    if resps == [] then [] else Flatten(resps[..|resps| - 1]) + resps[|resps| - 1]
  }

  /** The watcher: its heartbeat map, and the updates queued for `Next`. */
  class Watcher {
    const key: string
    const decode: seq<byte> -> Option<NodeData>
    var hbTimes: map<string, int>
    var updates: seq<Update>

    /** A watcher of the keys under `key`, with nothing seen or queued. */
    constructor (key: string, decode: seq<byte> -> Option<NodeData>)
      ensures this.key == key && this.decode == decode
      ensures hbTimes == map[] && updates == []
    {
      this.key := key;
      this.decode := decode;
      hbTimes := map[];
      updates := [];
    }

    /** The body of the watch loop for one record. */
    method HandleRecord(rec: Record)
      modifies this
      ensures var r := Step(old(hbTimes), rec, decode);
        hbTimes == r.hbTimes && updates == old(updates) + r.out
    {
      match rec.kind {
        case PUT =>
          var nd := decode(rec.value);
          if nd.None? {
            return;
          }
          if rec.key !in hbTimes || rec.now - hbTimes[rec.key] > Window {
            updates := updates + [Update(Add, nd.value.addr, nd.value.metadata)];
            hbTimes := hbTimes[rec.key := rec.now];
          }
        case DELETE =>
          hbTimes := hbTimes - {rec.key};
          updates := updates + [Update(Delete, rec.key, map[])];
      }
    }

    /** The records of one watch response, in order. */
    method HandleResponse(events: seq<Record>)
      modifies this
      ensures var r := Replay(old(hbTimes), events, decode);
        hbTimes == r.hbTimes && updates == old(updates) + r.out
    {
      for i := 0 to |events|
        invariant var r := Replay(old(hbTimes), events[..i], decode);
          hbTimes == r.hbTimes && updates == old(updates) + r.out
      {
        assert events[..i + 1][..i] == events[..i];
        HandleRecord(events[i]);
      }
      assert events[..|events|] == events;
    }

    /** The watch loop over a sequence of responses. */
    method Watch(resps: seq<seq<Record>>)
      modifies this
      ensures var r := Replay(old(hbTimes), Flatten(resps), decode);
        hbTimes == r.hbTimes && updates == old(updates) + r.out
    {
      for i := 0 to |resps|
        invariant var r := Replay(old(hbTimes), Flatten(resps[..i]), decode);
          hbTimes == r.hbTimes && updates == old(updates) + r.out
      {
        assert resps[..i + 1][..i] == resps[..i];
        ReplayAppend(old(hbTimes), Flatten(resps[..i]), resps[i], decode);
        HandleResponse(resps[i]);
      }
      assert resps[..|resps|] == resps;
    }

    /** Takes exactly one queued update, the oldest. */
    method Next() returns (batch: seq<Update>)
      requires |updates| > 0
      modifies this
      ensures batch == [old(updates)[0]]
      ensures updates == old(updates)[1..]
    {
      batch := [updates[0]];
      updates := updates[1..];
    }
  }

  /** One key/value pair of a range read; the value may be absent. */
  datatype KeyValue = KeyValue(key: string, value: Option<seq<byte>>)

  /** A range read's response; its list of pairs may be absent. */
  datatype GetResponse = GetResponse(kvs: Option<seq<KeyValue>>)

  /** The nodes of `kvs` whose value is present and decodes, in order. */
  function Decoded(kvs: seq<KeyValue>, decode: seq<byte> -> Option<NodeData>): seq<NodeData> {
    if kvs == [] then []
    else
      var prev := Decoded(kvs[..|kvs| - 1], decode);
      var last := kvs[|kvs| - 1];
      if last.value.Some? && decode(last.value.value).Some? then prev + [decode(last.value.value).value]
      else prev
  }

  /** `extractAddrs`: nothing for an absent response or an absent list;
      otherwise the decodable values, in order. */
  method ExtractAddrs(resp: Option<GetResponse>, decode: seq<byte> -> Option<NodeData>) returns (addrs: seq<NodeData>)
    ensures resp.None? || resp.value.kvs.None? ==> addrs == []
    ensures resp.Some? && resp.value.kvs.Some? ==> addrs == Decoded(resp.value.kvs.value, decode)
  {
    addrs := [];
    if resp.None? || resp.value.kvs.None? {
      return;
    }
    var kvs := resp.value.kvs.value;
    for i := 0 to |kvs|
      invariant addrs == Decoded(kvs[..i], decode)
    {
      assert kvs[..i + 1][..i] == kvs[..i];
      var v := kvs[i].value;
      if v.Some? {
        var nd := decode(v.value);
        if nd.None? {
          continue;
        }
        addrs := addrs + [nd.value];
      }
    }
    assert kvs[..|kvs|] == kvs;
  }

  /** Decoding splits over concatenation. */
  lemma {:induction false} DecodedAppend(a: seq<KeyValue>, b: seq<KeyValue>, decode: seq<byte> -> Option<NodeData>)
    ensures Decoded(a + b, decode) == Decoded(a, decode) + Decoded(b, decode)
  {
    if b == [] {
      assert a + b == a;
    } else {
      var b' := b[..|b| - 1];
      assert (a + b)[..|a + b| - 1] == a + b';
      DecodedAppend(a, b', decode);
    }
  }

  /** At most one node per pair, and exactly one per pair when every value is
      present and decodes. */
  lemma {:induction false} DecodedLength(kvs: seq<KeyValue>, decode: seq<byte> -> Option<NodeData>)
    ensures |Decoded(kvs, decode)| <= |kvs|
    ensures (forall i :: 0 <= i < |kvs| ==> kvs[i].value.Some? && decode(kvs[i].value.value).Some?) ==>
      |Decoded(kvs, decode)| == |kvs|
  {
    if kvs != [] {
      DecodedLength(kvs[..|kvs| - 1], decode);
    }
  }

  /** A node is extracted exactly when some pair carries a value that
      decodes to it. */
  lemma {:induction false} DecodedMembers(kvs: seq<KeyValue>, decode: seq<byte> -> Option<NodeData>, nd: NodeData)
    ensures nd in Decoded(kvs, decode) <==>
      exists i :: 0 <= i < |kvs| && kvs[i].value.Some? && decode(kvs[i].value.value) == Some(nd)
  {
    if kvs != [] {
      var init := kvs[..|kvs| - 1];
      DecodedMembers(init, decode, nd);
      if exists i :: 0 <= i < |init| && init[i].value.Some? && decode(init[i].value.value) == Some(nd) {
        var i :| 0 <= i < |init| && init[i].value.Some? && decode(init[i].value.value) == Some(nd);
        assert kvs[i] == init[i];
      }
      forall i | 0 <= i < |init| ensures kvs[i] == init[i] { }
    }
  }
}
