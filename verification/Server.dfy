/**
 The code around the cache and the log: one command of a client, and the rebuilding of the cache at start.

 Client threads, metrics, the circuit breaker around a command and the console are left out.
 */
module Server {
  import opened Recency
  import opened LRUCaches
  import opened WalLog
  import opened Recovery
  import opened StoreRuns
  import opened Snapshots

  /** What a client is told. */
  function Response(order: seq<Entry>, cmd: string, key: string, now: int): (bool, string) {
    if cmd == "SET" || cmd == "DEL" then (true, "OK")
    else if cmd == "GET" then
      match Lookup(order, key, now)
      case Some(v) => (true, v)
      case None => (true, "(nil)")
    else (false, "ERR unknown command")
  }

  function CommandOrder(cap: nat, order: seq<Entry>, logged: Option<Record>, now: int): seq<Entry> {
    match logged
    case Some(r) => ApplyRecord(cap, order, r, now)
    case None => order
  }

  function CommandLog(logged: Option<Record>): string {
    match logged
    case Some(r) => WalLog.Encode(r)
    case None => ""
  }

  lemma AnswersAfterSet(cap: nat, order: seq<Entry>, key: string, value: string, now: int)
    ensures cap > 0 ==> forall t ::
              Lookup(ApplyRecord(cap, order, Record("SET", key, value), now), key, t) ==
              if t <= now + 86_400_000_000_000 then Some(value) else None
  {
    if cap > 0 {
      forall t ensures Lookup(ApplyRecord(cap, order, Record("SET", key, value), now), key, t) ==
                       if t <= now + 86_400_000_000_000 then Some(value) else None {
        AppliedSet(cap, order, key, value, now, key, t);
      }
    }
  }

  lemma AnswersAfterDel(cap: nat, order: seq<Entry>, key: string, now: int)
    ensures forall x, t ::
              Lookup(ApplyRecord(cap, order, Record("DEL", key, ""), now), x, t) ==
              if x == key then None else Lookup(order, x, t)
  {
    forall x, t ensures Lookup(ApplyRecord(cap, order, Record("DEL", key, ""), now), x, t) ==
                        if x == key then None else Lookup(order, x, t) {
      AppliedDel(cap, order, key, now, x, t);
    }
  }

  class TCPServer {
    const cache: LRUCache
    const wal: Wal

    constructor (cache: LRUCache, wal: Wal)
      ensures this.cache == cache && this.wal == wal
    {
      this.cache := cache;
      this.wal := wal;
    }

    /** Appending to the log leaves the cache alone. */
    method AppendLog(op: string, key: string, value: string)
      requires cache.Valid()
      modifies wal
      ensures cache.Valid() && cache.Order() == old(cache.Order()) && cache.Repr() == old(cache.Repr())
      ensures wal.file == old(wal.file) + WalLog.Encode(Record(op, key, value))
    {
      wal.Append(op, key, value);
    }

    method SetThenLog(key: string, value: string, now: int)
      requires cache.Valid()
      modifies cache.Repr(), wal
      ensures cache.Valid() && fresh(cache.Repr() - old(cache.Repr()))
      ensures cache.Order() == ApplyRecord(cache.capacity, old(cache.Order()), Record("SET", key, value), now)
      ensures wal.file == old(wal.file) + WalLog.Encode(Record("SET", key, value))
      ensures wal.file == old(wal.file) + ("SET " + key + (if value == "" then "" else " " + value) + "\n")
      ensures cache.capacity > 0 ==> forall t ::
                Lookup(cache.Order(), key, t) == if t <= now + 86_400_000_000_000 then Some(value) else None
    {
      EncodedSet(key, value);
      assert wal !in cache.Repr();
      ghost var before := cache.Order();
      cache.Set(key, value, -1, now);
      AppendLog("SET", key, value);
      AnswersAfterSet(cache.capacity, before, key, value, now);
    }

    method DelThenLog(key: string, now: int)
      requires cache.Valid()
      modifies cache.Repr(), wal
      ensures cache.Valid() && fresh(cache.Repr() - old(cache.Repr()))
      ensures cache.Order() == ApplyRecord(cache.capacity, old(cache.Order()), Record("DEL", key, ""), now)
      ensures wal.file == old(wal.file) + WalLog.Encode(Record("DEL", key, ""))
      ensures wal.file == old(wal.file) + ("DEL " + key + "\n")
      ensures forall x, t ::
                Lookup(cache.Order(), x, t) == if x == key then None else Lookup(old(cache.Order()), x, t)
    {
      assert wal !in cache.Repr();
      ghost var before := cache.Order();
      cache.Del(key);
      EncodedDel(key);
      AppendLog("DEL", key, "");
      AnswersAfterDel(cache.capacity, before, key, now);
    }

    method AnswerGet(key: string, now: int) returns (response: string)
      requires cache.Valid()
      modifies cache`table, cache`hits, cache`misses
      ensures cache.Valid() && cache.Order() == old(cache.Order()) && cache.Repr() == old(cache.Repr())
      ensures (true, response) == Response(cache.Order(), "GET", key, now)
    {
      var val := cache.Get(key, now);
      response := if val.Some? then val.value else "(nil)";
    }

    /** A write changes the cache and then the log: the two steps of a run of the store. A read changes neither. */
    method ProcessCommand(cmd: string, key: string, value: string, now: int) returns (ok: bool, response: string)
      requires cache.Valid()
      modifies cache.Repr(), wal
      ensures cache.Valid() && fresh(cache.Repr() - old(cache.Repr()))
      ensures (ok, response) == Response(old(cache.Order()), cmd, key, now)
      ensures cache.Order() == CommandOrder(cache.capacity, old(cache.Order()), Logs(cmd, key, value), now)
      ensures wal.file == old(wal.file) + CommandLog(Logs(cmd, key, value))
      ensures cmd == "SET" ==>
                && ok && response == "OK"
                && wal.file == old(wal.file) + ("SET " + key + (if value == "" then "" else " " + value) + "\n")
                && (cache.capacity > 0 ==> forall t ::
                      Lookup(cache.Order(), key, t) == if t <= now + 86_400_000_000_000 then Some(value) else None)
      ensures cmd == "DEL" ==>
                && ok && response == "OK" && wal.file == old(wal.file) + ("DEL " + key + "\n")
                && forall x, t ::
                     Lookup(cache.Order(), x, t) == if x == key then None else Lookup(old(cache.Order()), x, t)
      ensures cmd == "GET" ==>
                && ok && response == (match Lookup(cache.Order(), key, now) case Some(v) => v case None => "(nil)")
      ensures cmd != "SET" && cmd != "DEL" ==> wal.file == old(wal.file) && cache.Order() == old(cache.Order())
      ensures cmd != "SET" && cmd != "DEL" && cmd != "GET" ==> !ok && response == "ERR unknown command"
    {
      assert wal !in cache.Repr();
      if cmd == "SET" {
        SetThenLog(key, value, now);
        ok, response := true, "OK";
      } else if cmd == "GET" {
        response := AnswerGet(key, now);
        ok := true;
      } else if cmd == "DEL" {
        DelThenLog(key, now);
        ok, response := true, "OK";
      } else {
        ok, response := false, "ERR unknown command";
      }
    }
  }

  /** The pairs of ks are loaded and the pending keys are not. */
  ghost predicate LoadedSoFar(
    cap: nat, order: seq<Entry>, ks: seq<string>, data: map<string, string>, pending: set<string>, times: seq<int>)
  {
    && Visited(ks, data, pending) && |ks| <= |times|
    && order == ReplayOver(cap, [], Sets(ks, data), times[..|ks|])
  }

  lemma LoadedNext(cap: nat, order: seq<Entry>, ks: seq<string>, data: map<string, string>, pending: set<string>,
                   times: seq<int>, key: string)
    requires LoadedSoFar(cap, order, ks, data, pending, times) && key in pending && |times| == |data|
    ensures key in data && |ks| < |times|
    ensures LoadedSoFar(cap, Put(cap, order, Entry(key, data[key], Expiry(times[|ks|], -1))), ks + [key], data,
                        pending - {key}, times)
  {
    VisitNext(ks, data, pending, key);
    SetsSnoc(cap, ks, data, key, times, |ks|);
  }

  /** The loaded pairs, visited in whatever order ks the map is iterated; times gives one clock reading for each. */
  method LoadSnapshot(cache: LRUCache, data: map<string, string>, times: seq<int>) returns (ghost ks: seq<string>)
    requires cache.Valid() && cache.Order() == [] && |times| == |data|
    modifies cache.Repr()
    ensures cache.Valid() && fresh(cache.Repr() - old(cache.Repr()))
    ensures Enumerates(ks, data) && |ks| == |data|
    ensures cache.Order() == ReplayOver(cache.capacity, [], Sets(ks, data), times)
  {
    ks := [];
    var i := 0;
    var pending := data.Keys;
    while pending != {}
      invariant cache.Valid() && fresh(cache.Repr() - old(cache.Repr()))
      invariant LoadedSoFar(cache.capacity, cache.Order(), ks, data, pending, times) && i == |ks|
      decreases pending
    {
      var key :| key in pending;
      LoadedNext(cache.capacity, cache.Order(), ks, data, pending, times, key);
      ghost var objects := cache.Repr();
      cache.Set(key, data[key], -1, times[i]);
      assert cache.Repr() <= objects + (cache.Repr() - objects);
      ks := ks + [key];
      pending := pending - {key};
      i := i + 1;
    }
    assert times[..i] == times;
  }

  method ApplyTo(cache: LRUCache, r: Record, now: int)
    requires cache.Valid()
    modifies cache.Repr()
    ensures cache.Valid() && fresh(cache.Repr() - old(cache.Repr()))
    ensures cache.Order() == ApplyRecord(cache.capacity, old(cache.Order()), r, now)
  {
    if r.op == "SET" {
      cache.Set(r.key, r.value, -1, now);
    } else if r.op == "DEL" {
      cache.Del(r.key);
    }
  }

  /** The records of the log in order; records of other operations are passed over. */
  method ReplayLog(cache: LRUCache, ops: seq<Record>, times: seq<int>)
    requires cache.Valid() && |times| == |ops|
    modifies cache.Repr()
    ensures cache.Valid() && fresh(cache.Repr() - old(cache.Repr()))
    ensures cache.Order() == ReplayOver(cache.capacity, old(cache.Order()), ops, times)
  {
    for i := 0 to |ops|
      invariant cache.Valid() && fresh(cache.Repr() - old(cache.Repr()))
      invariant cache.Order() == ReplayOver(cache.capacity, old(cache.Order()), ops[..i], times[..i])
    {
      ApplyTo(cache, ops[i], times[i]);
      ReplaySnoc(cache.capacity, old(cache.Order()), ops, times, i);
    }
    assert ops[..|ops|] == ops && times[..|ops|] == times;
  }

  /** The recovery sequence of the start of the program: empty cache, snapshot, log. */
  method Recover(capacity: nat, persistence: Persistence, wal: Wal, times: seq<int>)
    returns (cache: LRUCache, ghost ks: seq<string>)
    requires |times| == |Load(persistence.file)| + |Replay(wal.file)|
    ensures fresh(cache.Repr()) && cache.Valid() && cache.capacity == capacity
    ensures Enumerates(ks, Load(persistence.file))
    ensures var rs := Sets(ks, Load(persistence.file)) + Replay(wal.file);
            |rs| == |times| && cache.Order() == ReplayOver(capacity, [], rs, times)
  {
    var data := persistence.LoadAll();
    var n := |data|;
    cache, ks := StartFromSnapshot(capacity, data, times[..n]);
    var ops := wal.ReadAll();
    ghost var loaded, objects := cache.Order(), cache.Repr();
    ReplayLog(cache, ops, times[n..]);
    assert cache.Repr() <= objects + (cache.Repr() - objects);
    Joined(capacity, Sets(ks, data), ops, times, loaded, cache.Order());
  }

  method StartFromSnapshot(capacity: nat, data: map<string, string>, times: seq<int>)
    returns (cache: LRUCache, ghost ks: seq<string>)
    requires |times| == |data|
    ensures fresh(cache.Repr()) && cache.Valid() && cache.capacity == capacity
    ensures Enumerates(ks, data) && |ks| == |data|
    ensures cache.Order() == ReplayOver(capacity, [], Sets(ks, data), times)
  {
    cache := new LRUCache(capacity);
    ks := LoadSnapshot(cache, data, times);
  }

  lemma Joined(cap: nat, sets: seq<Record>, ops: seq<Record>, ts: seq<int>, mid: seq<Entry>, end: seq<Entry>)
    requires |ts| == |sets| + |ops|
    requires mid == ReplayOver(cap, [], sets, ts[..|sets|]) && end == ReplayOver(cap, mid, ops, ts[|sets|..])
    ensures end == ReplayOver(cap, [], sets + ops, ts)
  {
    ReplayConcat(cap, [], sets, ts[..|sets|], ops, ts[|sets|..]);
    assert ts[..|sets|] + ts[|sets|..] == ts;
  }

  lemma ReplaySnoc(cap: nat, order: seq<Entry>, rs: seq<Record>, ts: seq<int>, i: nat)
    requires |rs| == |ts| && i < |rs|
    ensures ReplayOver(cap, order, rs[..i+1], ts[..i+1]) ==
            ApplyRecord(cap, ReplayOver(cap, order, rs[..i], ts[..i]), rs[i], ts[i])
  {
    assert rs[..i+1][..i] == rs[..i] && ts[..i+1][..i] == ts[..i];
  }

  lemma SetsSnoc(cap: nat, ks: seq<string>, data: map<string, string>, k: string, ts: seq<int>, i: nat)
    requires (forall x :: x in ks ==> x in data) && k in data && i == |ks| < |ts|
    ensures ReplayOver(cap, [], Sets(ks + [k], data), ts[..i+1]) ==
            Put(cap, ReplayOver(cap, [], Sets(ks, data), ts[..i]), Entry(k, data[k], Expiry(ts[i], -1)))
  {
    var rs := Sets(ks + [k], data);
    assert rs[..i] == Sets(ks, data) && rs[i] == Record("SET", k, data[k]) && rs[..i+1] == rs;
    ReplaySnoc(cap, [], rs, ts[..i+1], i);
    assert ts[..i+1][..i] == ts[..i] && ts[..i+1][..i+1] == ts[..i+1];
  }
}
