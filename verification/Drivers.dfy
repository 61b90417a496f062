/**
 The code driven through whole histories: a cache through timed calls, a ring and a breaker through
 theirs, and the server, the sweep and the start of the program through the steps of the store.
 */
module Drivers {
  import opened Recency
  import opened LRUCaches
  import opened CacheRuns
  import opened WalLog
  import opened StoreRuns
  import opened Server
  import B = BreakerRuns
  import C = CircuitBreakers
  import H = HashRings
  import R = Rebuilding
  import Residence
  import Snapshots

  // ---------- one cache through a history of calls ----------

  lemma CountReplies(rs: seq<Reply>, one: Reply)
    ensures Hits(rs + [one]) == Hits(rs) + (if one.Hit? then 1 else 0)
    ensures Misses(rs + [one]) == Misses(rs) + (if one.Miss? then 1 else 0)
  {
    assert (rs + [one])[..|rs|] == rs;
  }

  method PerformGet(cache: LRUCache, key: string, now: int, ghost before: seq<Reply>) returns (answer: seq<Reply>)
    requires cache.Valid()
    requires cache.hits == Hits(before) && cache.misses == Misses(before)
    modifies cache`table, cache`hits, cache`misses
    ensures cache.Valid() && cache.Order() == old(cache.Order()) && cache.Repr() == old(cache.Repr())
    ensures answer == Answer(old(cache.Order()), At(now, Get(key)))
    ensures cache.hits == Hits(before + answer) && cache.misses == Misses(before + answer)
  {
    var value := cache.Get(key, now);
    var reply := if value.Some? then Hit(value.value) else Miss;
    CountReplies(before, reply);
    answer := [reply];
  }

  method PerformExists(cache: LRUCache, key: string, now: int, ghost before: seq<Reply>) returns (answer: seq<Reply>)
    requires cache.Valid()
    requires cache.hits == Hits(before) && cache.misses == Misses(before)
    ensures answer == Answer(cache.Order(), At(now, Exists(key)))
    ensures cache.hits == Hits(before + answer) && cache.misses == Misses(before + answer)
  {
    var found := cache.Exists(key, now);
    var reply := if found then Yes else No;
    CountReplies(before, reply);
    answer := [reply];
  }

  /** A call that answers nothing leaves the counters alone. */
  method PerformChange(cache: LRUCache, c: Call)
    requires cache.Valid() && (c.op.Set? || c.op.Del? || c.op.Cleanup?)
    modifies cache.Repr()
    ensures cache.Valid() && fresh(cache.Repr() - old(cache.Repr()))
    ensures cache.Order() == Apply(cache.capacity, old(cache.Order()), c)
    ensures cache.hits == old(cache.hits) && cache.misses == old(cache.misses)
  {
    match c.op
    case Set(key, value, ttl) => cache.Set(key, value, ttl, c.now);
    case Del(key) => cache.Del(key);
    case Cleanup => cache.CleanupExpired(c.now);
  }

  /** One call; the counters go on counting the replies given so far. */
  method PerformCall(cache: LRUCache, c: Call, ghost before: seq<Reply>) returns (answer: seq<Reply>)
    requires cache.Valid()
    requires cache.hits == Hits(before) && cache.misses == Misses(before)
    modifies cache.Repr()
    ensures cache.Valid() && fresh(cache.Repr() - old(cache.Repr()))
    ensures cache.Order() == Apply(cache.capacity, old(cache.Order()), c)
    ensures answer == Answer(old(cache.Order()), c)
    ensures cache.hits == Hits(before + answer) && cache.misses == Misses(before + answer)
  {
    match c.op
    case Get(key) => answer := PerformGet(cache, key, c.now, before);
    case Exists(key) => answer := PerformExists(cache, key, c.now, before);
    case _ =>
      PerformChange(cache, c);
      answer := [];
      assert before + [] == before;
  }

  lemma RunSnoc(cap: nat, h: seq<Call>, i: nat)
    requires i < |h|
    ensures Run(cap, h[..i+1]) == Apply(cap, Run(cap, h[..i]), h[i])
    ensures Replies(cap, h[..i+1]) == Replies(cap, h[..i]) + Answer(Run(cap, h[..i]), h[i])
  {
    assert Init(h[..i+1]) == h[..i] && Last(h[..i+1]) == h[i];
  }

  lemma RunEmpty(cap: nat)
    ensures Run(cap, []) == [] && Replies(cap, []) == []
  {
  }

  /** The calls of a history, made in order on a new cache. */
  method PerformAll(cache: LRUCache, h: seq<Call>) returns (replies: seq<Reply>)
    requires cache.Valid() && cache.Order() == [] && cache.hits == cache.misses == 0
    modifies cache.Repr()
    ensures cache.Valid() && fresh(cache.Repr() - old(cache.Repr()))
    ensures cache.Order() == Run(cache.capacity, h) && replies == Replies(cache.capacity, h)
    ensures cache.hits == Hits(replies) && cache.misses == Misses(replies)
  {
    replies := [];
    RunEmpty(cache.capacity);
    for i := 0 to |h|
      invariant cache.Valid() && fresh(cache.Repr() - old(cache.Repr()))
      invariant cache.Order() == Run(cache.capacity, h[..i]) && replies == Replies(cache.capacity, h[..i])
      invariant cache.hits == Hits(replies) && cache.misses == Misses(replies)
    {
      ghost var objects := cache.Repr();
      var answer := PerformCall(cache, h[i], replies);
      assert cache.Repr() <= objects + (cache.Repr() - objects);
      RunSnoc(cache.capacity, h, i);
      replies := replies + answer;
    }
    assert h[..|h|] == h;
  }

  /**
   A new cache of any capacity, through any history of calls, is the run of that history and gives its
   replies, which the history tells.
   */
  method Perform(capacity: nat, h: seq<Call>) returns (cache: LRUCache, replies: seq<Reply>)
    ensures fresh(cache.Repr()) && cache.Valid() && cache.capacity == capacity
    ensures cache.Order() == Run(capacity, h) && replies == Replies(capacity, h)
    ensures replies == Residence.ToldReplies(capacity, h)
    ensures cache.hits == Hits(replies) && cache.misses == Misses(replies)
  {
    cache := new LRUCache(capacity);
    ghost var objects := cache.Repr();
    replies := PerformAll(cache, h);
    assert cache.Repr() <= objects + (cache.Repr() - objects);
    Residence.RepliesAreTold(capacity, h);
  }

  // ---------- the code as steps of the store ----------

  /** Cache and log file stand where the store s does, between commands. */
  ghost predicate Represents(cap: nat, cache: LRUCache, wal: Wal, s: Store)
    reads cache, cache.lru, cache.lru.sentinel, cache.lru.nodes, wal
  {
    && cache.Valid() && cache.capacity == cap && cache.Order() == s.order
    && wal.file == s.log && s.up && s.pending == None
  }

  /** The steps a command amounts to: the cache update and, for a write, the append. */
  function StepsOf(cmd: string, key: string, value: string, now: int): seq<Step> {
    [Update(cmd, key, value, now)] + (if Logs(cmd, key, value).Some? then [AppendLog] else [])
  }

  lemma CommandSteps(cfg: Config, steps: seq<Step>, cmd: string, key: string, value: string, now: int)
    requires Legal(cfg, steps)
    requires After(cfg, steps).up && After(cfg, steps).pending == None && After(cfg, steps).clock <= now
    ensures Legal(cfg, steps + StepsOf(cmd, key, value, now))
    ensures var s, t, r := After(cfg, steps), After(cfg, steps + StepsOf(cmd, key, value, now)), Logs(cmd, key, value);
            && t.order == CommandOrder(cfg.cap, s.order, r, now)
            && t.log == s.log + CommandLog(r) && t.up && t.pending == None && t.clock == now
  {
    var update := Update(cmd, key, value, now);
    Extend(cfg, steps, update);
    if Logs(cmd, key, value).Some? {
      Extend(cfg, steps + [update], AppendLog);
      assert steps + StepsOf(cmd, key, value, now) == steps + [update] + [AppendLog];
    } else {
      assert steps + StepsOf(cmd, key, value, now) == steps + [update];
      assert After(cfg, steps).log + "" == After(cfg, steps).log;
    }
  }

  /** One command of a client, after any run of the store. */
  method Serve(server: TCPServer, cmd: string, key: string, value: string, now: int,
               ghost cfg: Config, ghost steps: seq<Step>)
    returns (ok: bool, response: string)
    requires Legal(cfg, steps) && After(cfg, steps).clock <= now
    requires Represents(cfg.cap, server.cache, server.wal, After(cfg, steps))
    modifies server.cache.Repr(), server.wal
    ensures fresh(server.cache.Repr() - old(server.cache.Repr()))
    ensures Legal(cfg, steps + StepsOf(cmd, key, value, now))
    ensures Represents(cfg.cap, server.cache, server.wal, After(cfg, steps + StepsOf(cmd, key, value, now)))
    ensures (ok, response) == Response(After(cfg, steps).order, cmd, key, now)
  {
    CommandSteps(cfg, steps, cmd, key, value, now);
    ok, response := server.ProcessCommand(cmd, key, value, now);
  }

  /** One turn of the cleanup thread, after any run of the store. */
  method SweepOnce(cache: LRUCache, wal: Wal, now: int, ghost cfg: Config, ghost steps: seq<Step>)
    requires Legal(cfg, steps) && After(cfg, steps).clock <= now
    requires Represents(cfg.cap, cache, wal, After(cfg, steps))
    modifies cache.Repr()
    ensures cache.Repr() <= old(cache.Repr())
    ensures Legal(cfg, steps + [Sweep(now)])
    ensures Represents(cfg.cap, cache, wal, After(cfg, steps + [Sweep(now)]))
  {
    Extend(cfg, steps, Sweep(now));
    assert wal !in cache.Repr();
    cache.CleanupExpired(now);
  }

  /** What reaches a running store: commands of clients and turns of the cleanup thread. */
  datatype Request =
    | Command(cmd: string, key: string, value: string, now: int)
    | Tick(now: int)

  function StepsOfRequest(q: Request): seq<Step> {
    match q
    case Command(cmd, key, value, now) => StepsOf(cmd, key, value, now)
    case Tick(now) => [Sweep(now)]
  }

  function StepsOfAll(h: seq<Request>): seq<Step> {
    if h == [] then [] else StepsOfAll(h[..|h|-1]) + StepsOfRequest(h[|h|-1])
  }

  function OrderAfter(cap: nat, order: seq<Entry>, q: Request): seq<Entry> {
    match q
    case Command(cmd, key, value, now) => CommandOrder(cap, order, Logs(cmd, key, value), now)
    case Tick(now) => Cleaned(order, now)
  }

  function ResponsesTo(order: seq<Entry>, q: Request): seq<(bool, string)> {
    match q
    case Command(cmd, key, value, now) => [Response(order, cmd, key, now)]
    case Tick(now) => []
  }

  function OrderAfterAll(cap: nat, order: seq<Entry>, h: seq<Request>): seq<Entry> {
    if h == [] then order else OrderAfter(cap, OrderAfterAll(cap, order, h[..|h|-1]), h[|h|-1])
  }

  function Responses(cap: nat, order: seq<Entry>, h: seq<Request>): seq<(bool, string)> {
    if h == [] then []
    else Responses(cap, order, h[..|h|-1]) + ResponsesTo(OrderAfterAll(cap, order, h[..|h|-1]), h[|h|-1])
  }

  lemma RequestSteps(cfg: Config, steps: seq<Step>, q: Request)
    requires Legal(cfg, steps)
    requires After(cfg, steps).up && After(cfg, steps).pending == None && After(cfg, steps).clock <= q.now
    ensures Legal(cfg, steps + StepsOfRequest(q))
    ensures After(cfg, steps + StepsOfRequest(q)).order == OrderAfter(cfg.cap, After(cfg, steps).order, q)
    ensures After(cfg, steps + StepsOfRequest(q)).clock == q.now
  {
    match q
    case Command(cmd, key, value, now) => CommandSteps(cfg, steps, cmd, key, value, now);
    case Tick(now) => Extend(cfg, steps, Sweep(now));
  }

  lemma RequestsSnoc(cap: nat, order: seq<Entry>, h: seq<Request>, i: nat, steps: seq<Step>)
    requires i < |h|
    ensures steps + StepsOfAll(h[..i+1]) == steps + StepsOfAll(h[..i]) + StepsOfRequest(h[i])
    ensures OrderAfterAll(cap, order, h[..i+1]) == OrderAfter(cap, OrderAfterAll(cap, order, h[..i]), h[i])
    ensures Responses(cap, order, h[..i+1]) ==
            Responses(cap, order, h[..i]) + ResponsesTo(OrderAfterAll(cap, order, h[..i]), h[i])
  {
    assert h[..i+1][..i] == h[..i] && h[..i+1][i] == h[i];
  }

  method ServeRequest(server: TCPServer, q: Request, ghost cfg: Config, ghost steps: seq<Step>)
    returns (responses: seq<(bool, string)>)
    requires Legal(cfg, steps) && After(cfg, steps).clock <= q.now
    requires Represents(cfg.cap, server.cache, server.wal, After(cfg, steps))
    modifies server.cache.Repr(), server.wal
    ensures fresh(server.cache.Repr() - old(server.cache.Repr()))
    ensures Legal(cfg, steps + StepsOfRequest(q))
    ensures Represents(cfg.cap, server.cache, server.wal, After(cfg, steps + StepsOfRequest(q)))
    ensures responses == ResponsesTo(After(cfg, steps).order, q)
  {
    match q
    case Command(cmd, key, value, now) =>
      var ok, response := Serve(server, cmd, key, value, now, cfg, steps);
      responses := [(ok, response)];
    case Tick(now) =>
      SweepOnce(server.cache, server.wal, now, cfg, steps);
      responses := [];
  }

  predicate InOrder(h: seq<Request>) {
    forall i, j :: 0 <= i < j < |h| ==> h[i].now <= h[j].now
  }

  /** After i requests of h on top of the run `steps`: the run so far, the responses, and a clock not past the rest. */
  ghost predicate Underway(
    cfg: Config, steps: seq<Step>, h: seq<Request>, i: nat, run: seq<Step>, responses: seq<(bool, string)>)
  {
    && i <= |h| && Legal(cfg, steps) && Legal(cfg, run) && run == steps + StepsOfAll(h[..i])
    && After(cfg, run).order == OrderAfterAll(cfg.cap, After(cfg, steps).order, h[..i])
    && responses == Responses(cfg.cap, After(cfg, steps).order, h[..i])
    && (forall j :: i <= j < |h| ==> After(cfg, run).clock <= h[j].now)
  }

  lemma UnderwayStart(cfg: Config, steps: seq<Step>, h: seq<Request>)
    requires Legal(cfg, steps) && forall j :: 0 <= j < |h| ==> After(cfg, steps).clock <= h[j].now
    ensures Underway(cfg, steps, h, 0, steps, [])
  {
    assert steps + [] == steps;
  }

  lemma UnderwayNext(
    cfg: Config, steps: seq<Step>, h: seq<Request>, i: nat, run: seq<Step>, responses: seq<(bool, string)>)
    requires Underway(cfg, steps, h, i, run, responses) && i < |h| && InOrder(h)
    requires After(cfg, run).up && After(cfg, run).pending == None
    ensures Underway(cfg, steps, h, i + 1, run + StepsOfRequest(h[i]),
                     responses + ResponsesTo(After(cfg, run).order, h[i]))
  {
    RequestSteps(cfg, run, h[i]);
    RequestsSnoc(cfg.cap, After(cfg, steps).order, h, i, steps);
  }

  /** The server stands where i requests of h lead, with these responses given. */
  ghost predicate Served(
    server: TCPServer, cfg: Config, steps: seq<Step>, h: seq<Request>, i: nat, run: seq<Step>,
    responses: seq<(bool, string)>)
    reads server, server.cache, server.cache.lru, server.cache.lru.sentinel, server.cache.lru.nodes, server.wal
  {
    Underway(cfg, steps, h, i, run, responses) && Represents(cfg.cap, server.cache, server.wal, After(cfg, run))
  }

  method ServeNext(server: TCPServer, h: seq<Request>, i: nat, responses: seq<(bool, string)>,
                   ghost cfg: Config, ghost steps: seq<Step>, ghost run: seq<Step>)
    returns (more: seq<(bool, string)>, ghost run': seq<Step>)
    requires Served(server, cfg, steps, h, i, run, responses) && i < |h| && InOrder(h)
    modifies server.cache.Repr(), server.wal
    ensures fresh(server.cache.Repr() - old(server.cache.Repr()))
    ensures Served(server, cfg, steps, h, i + 1, run', more)
  {
    UnderwayNext(cfg, steps, h, i, run, responses);
    more := ServeRequest(server, h[i], cfg, run);
    more, run' := responses + more, run + StepsOfRequest(h[i]);
  }

  /**
   Any list of commands and cleanups, after any run of the store: cache and log file end where the steps of
   all of them lead, and each client is told what the list held at its turn.
   */
  method ServeAll(server: TCPServer, h: seq<Request>, ghost cfg: Config, ghost steps: seq<Step>)
    returns (responses: seq<(bool, string)>)
    requires Legal(cfg, steps) && InOrder(h)
    requires forall j :: 0 <= j < |h| ==> After(cfg, steps).clock <= h[j].now
    requires Represents(cfg.cap, server.cache, server.wal, After(cfg, steps))
    modifies server.cache.Repr(), server.wal
    ensures fresh(server.cache.Repr() - old(server.cache.Repr()))
    ensures Legal(cfg, steps + StepsOfAll(h))
    ensures Represents(cfg.cap, server.cache, server.wal, After(cfg, steps + StepsOfAll(h)))
    ensures server.cache.Order() == OrderAfterAll(cfg.cap, After(cfg, steps).order, h)
    ensures responses == Responses(cfg.cap, After(cfg, steps).order, h)
  {
    responses := [];
    ghost var run := steps;
    UnderwayStart(cfg, steps, h);
    for i := 0 to |h|
      invariant fresh(server.cache.Repr() - old(server.cache.Repr()))
      invariant Served(server, cfg, steps, h, i, run, responses)
    {
      ghost var objects := server.cache.Repr();
      responses, run := ServeNext(server, h, i, responses, cfg, steps, run);
      assert server.cache.Repr() <= objects + (server.cache.Repr() - objects);
    }
    assert h[..|h|] == h;
  }

  /** The start of the program, the first one or one after a crash. */
  method Start(capacity: nat, persistence: Snapshots.Persistence, wal: Wal, times: seq<int>, ghost base: int,
               ghost cfg: Config, ghost steps: seq<Step>)
    returns (cache: LRUCache, ghost ks: seq<string>)
    requires Legal(cfg, steps) && !After(cfg, steps).up
    requires capacity == cfg.cap && persistence.file == cfg.snapshotFile && wal.file == After(cfg, steps).log
    requires |times| == |Data(cfg)| + |Replay(wal.file)| && R.Ascending(times, base)
    ensures fresh(cache.Repr())
    ensures Legal(cfg, steps + [Restart(base, ks, times)])
    ensures Represents(cfg.cap, cache, wal, After(cfg, steps + [Restart(base, ks, times)]))
  {
    RunsKeepInvariant(cfg, steps);
    cache, ks := Recover(capacity, persistence, wal, times);
    Extend(cfg, steps, Restart(base, ks, times));
  }

  // ---------- a ring and a breaker through their histories ----------

  /** A new ring through any changes of membership. */
  method FollowChanges(signedChar: bool, h: seq<H.Change>) returns (ring: H.HashRing)
    ensures fresh(ring) && ring.ring == H.RingAfter(H.PointsOf(signedChar), h)
  {
    ring := new H.HashRing(signedChar);
    for i := 0 to |h|
      invariant fresh(ring) && ring.signedChar == signedChar
      invariant ring.ring == H.RingAfter(H.PointsOf(signedChar), h[..i])
    {
      assert h[..i+1][..i] == h[..i];
      match h[i]
      case Join(n) => ring.AddNode(n);
      case Leave(n) => ring.RemoveNode(n);
    }
    assert h[..|h|] == h;
  }

  /** What the requests of a history are told. */
  function Admissions(threshold: int, timeout: int, h: seq<B.Event>): seq<bool> {
    if h == [] then []
    else
      Admissions(threshold, timeout, h[..|h|-1]) +
      (if h[|h|-1].Allow? then [B.Run(threshold, timeout, h[..|h|-1]).Allows(h[|h|-1].now)] else [])
  }

  /** A new breaker through any events. */
  method FollowEvents(threshold: int, timeout: int, h: seq<B.Event>) returns (b: C.CircuitBreaker, answers: seq<bool>)
    ensures fresh(b) && b.View() == B.Run(threshold, timeout, h) && answers == Admissions(threshold, timeout, h)
  {
    b := new C.CircuitBreaker(threshold, timeout);
    answers := [];
    for i := 0 to |h|
      invariant fresh(b) && b.View() == B.Run(threshold, timeout, h[..i])
      invariant answers == Admissions(threshold, timeout, h[..i])
    {
      assert h[..i+1][..i] == h[..i];
      match h[i]
      case Allow(now) =>
        var allowed := b.AllowRequest(now);
        answers := answers + [allowed];
      case Success(_) => b.RecordSuccess();
      case Failure(now) => b.RecordFailure(now);
    }
    assert h[..|h|] == h;
  }
}
