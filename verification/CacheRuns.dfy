/**
 Timed runs of the cache: what every sequence of calls keeps, at every capacity.

 A history lists the calls oldest first. Everything here is by induction on its last call.
 */
module CacheRuns {
  import opened Recency

  datatype Op =
    | Set(key: string, value: string, ttl: int)
    | Del(key: string)
    | Cleanup
    | Get(key: string)
    | Exists(key: string)

  datatype Call = At(now: int, op: Op)

  datatype Reply = Hit(value: string) | Miss | Yes | No {
    predicate Positive() { Hit? || Yes? }
    predicate OfGet() { Hit? || Miss? }
  }

  function Write(now: int, op: Op): Entry
    requires op.Set?
  {
    Entry(op.key, op.value, Expiry(now, op.ttl))
  }

  function Apply(cap: nat, order: seq<Entry>, c: Call): seq<Entry> {
    match c.op
    case Set(_, _, _) => Put(cap, order, Write(c.now, c.op))
    case Del(k) => Without(order, k)
    case Cleanup => Cleaned(order, c.now)
    case Get(_) => order
    case Exists(_) => order
  }

  /** The calls that answer: `get` with a hit or a miss, `exists` with yes or no. */
  function Answer(order: seq<Entry>, c: Call): seq<Reply> {
    match c.op
    case Get(k) => [match Lookup(order, k, c.now) case Some(v) => Hit(v) case None => Miss]
    case Exists(k) => [if Lookup(order, k, c.now).Some? then Yes else No]
    case _ => []
  }

  function Last(h: seq<Call>): Call
    requires h != []
  {
    h[|h|-1]
  }

  function Init(h: seq<Call>): seq<Call>
    requires h != []
  {
    h[..|h|-1]
  }

  function Run(cap: nat, h: seq<Call>): seq<Entry> {
    if h == [] then [] else Apply(cap, Run(cap, Init(h)), Last(h))
  }

  function Replies(cap: nat, h: seq<Call>): seq<Reply> {
    if h == [] then [] else Replies(cap, Init(h)) + Answer(Run(cap, Init(h)), Last(h))
  }

  function Hits(rs: seq<Reply>): nat {
    if rs == [] then 0 else Hits(rs[..|rs|-1]) + (if rs[|rs|-1].Hit? then 1 else 0)
  }

  function Misses(rs: seq<Reply>): nat {
    if rs == [] then 0 else Misses(rs[..|rs|-1]) + (if rs[|rs|-1].Miss? then 1 else 0)
  }

  function Gets(h: seq<Call>): nat {
    if h == [] then 0 else Gets(Init(h)) + (if Last(h).op.Get? then 1 else 0)
  }

  /** Steady-clock readings never go back. */
  ghost predicate Monotone(h: seq<Call>) {
    forall i, j :: 0 <= i < j < |h| ==> h[i].now <= h[j].now
  }

  lemma {:induction false} RunBounded(cap: nat, h: seq<Call>)
    ensures Distinct(Run(cap, h)) && |Run(cap, h)| <= cap
  {
    if h != [] {
      var before := Run(cap, Init(h));
      RunBounded(cap, Init(h));
      match Last(h).op
      case Set(_, _, _) => PutDistinct(cap, before, Write(Last(h).now, Last(h).op));
      case Del(k) => KeepDistinct(before, NotKey(k)); KeepMembers(before, NotKey(k));
      case Cleanup =>
        KeepDistinct(before, Unexpired(Last(h).now));
        KeepMembers(before, Unexpired(Last(h).now));
      case _ =>
    }
  }

  // ---------- capacity inclusion ----------

  /** The list at the smaller capacity is a prefix of the list at the larger one, after every history. */
  lemma {:induction false} CapacityInclusion(m: nat, n: nat, h: seq<Call>)
    requires m <= n
    ensures Run(m, h) <= Run(n, h)
  {
    if h != [] {
      var a, b, c := Run(m, Init(h)), Run(n, Init(h)), Last(h);
      CapacityInclusion(m, n, Init(h));
      match c.op
      case Set(_, _, _) => PutPrefix(m, n, a, b, Write(c.now, c.op));
      case Del(k) => KeepPrefix(a, b, NotKey(k));
      case Cleanup => KeepPrefix(a, b, Unexpired(c.now));
      case _ =>
    }
  }

  // ---------- cleanups and capacity never lose a live hit ----------

  /** Reply by reply, s answers what r answers positively, with the same values. */
  ghost predicate AtLeast(r: seq<Reply>, s: seq<Reply>) {
    && |r| == |s|
    && forall i :: 0 <= i < |r| ==> r[i].OfGet() == s[i].OfGet() && (r[i].Positive() ==> s[i] == r[i])
  }

  /** The longer history is h with cleanups inserted, at any places. */
  ghost predicate CleanupsInserted(h: seq<Call>, longer: seq<Call>) {
    if longer == [] then h == []
    else
      || (Last(longer).op.Cleanup? && CleanupsInserted(h, Init(longer)))
      || (h != [] && Last(h) == Last(longer) && CleanupsInserted(Init(h), Init(longer)))
  }

  function In(live: set<Entry>): Entry -> bool { (e: Entry) => e in live }

  /** Every entry of a that is not expired at time now is one of live. */
  ghost predicate Covers(live: set<Entry>, a: seq<Entry>, now: int) {
    forall e :: e in a && !Expired(e, now) ==> e in live
  }

  /**
   The cut-point invariant. Some set of entries covers what is live in a, and a restricted to it is
   a prefix of b: b keeps all that is live in a, in front of anything that only b has.
   */
  ghost predicate Dominates(b: seq<Entry>, a: seq<Entry>, now: int) {
    exists live: set<Entry> :: Covers(live, a, now) && Keep(a, In(live)) <= b
  }

  lemma {:induction false} KeepSame(order: seq<Entry>, p: Entry -> bool, q: Entry -> bool)
    requires forall e :: e in order ==> (p(e) <==> q(e))
    ensures Keep(order, p) == Keep(order, q)
  {
    if order != [] {
      assert order[0] in order && forall e :: e in order[1..] ==> e in order;
      KeepSame(order[1..], p, q);
    }
  }

  lemma DominatesAfterPut(m: nat, n: nat, a: seq<Entry>, b: seq<Entry>, e: Entry, now: int)
    requires m <= n && Dominates(b, a, now)
    ensures Dominates(Put(n, b, e), Put(m, a, e), now)
  {
    var live: set<Entry> :| Covers(live, a, now) && Keep(a, In(live)) <= b;
    var live' := live + {e};
    CoversAfterPut(m, a, e, live, now);
    KeptAfterPut(a, b, e, live);
    var all, a' := [e] + Without(a, e.key), Put(m, a, e);
    KeepPrefix(a', all, In(live'));
    KeepMembers(a', In(live'));
    TakePrefix(n, Keep(a', In(live')), [e] + Without(b, e.key));
  }

  lemma TakePrefix(n: nat, a: seq<Entry>, b: seq<Entry>)
    requires a <= b && |a| <= n
    ensures a <= Take(n, b)
  {
  }

  lemma CoversAfterPut(m: nat, a: seq<Entry>, e: Entry, live: set<Entry>, now: int)
    requires Covers(live, a, now)
    ensures Covers(live + {e}, Put(m, a, e), now)
  {
    KeepMembers(a, NotKey(e.key));
  }

  lemma KeptAfterPut(a: seq<Entry>, b: seq<Entry>, e: Entry, live: set<Entry>)
    requires Keep(a, In(live)) <= b
    ensures Keep([e] + Without(a, e.key), In(live + {e})) <= [e] + Without(b, e.key)
  {
    var rest := Without(a, e.key);
    KeepMembers(a, NotKey(e.key));
    KeepSame(rest, In(live + {e}), In(live));
    KeepCommutes(a, NotKey(e.key), In(live));
    KeepPrefix(Keep(a, In(live)), b, NotKey(e.key));
    assert Keep([e] + rest, In(live + {e})) == [e] + Keep(rest, In(live + {e}));
  }

  lemma DominatesAfterKeep(a: seq<Entry>, b: seq<Entry>, p: Entry -> bool, now: int)
    requires Dominates(b, a, now)
    ensures Dominates(Keep(b, p), Keep(a, p), now)
  {
    var live: set<Entry> :| Covers(live, a, now) && Keep(a, In(live)) <= b;
    KeepMembers(a, p);
    KeepCommutes(a, p, In(live));
    KeepPrefix(Keep(a, In(live)), b, p);
    assert Covers(live, Keep(a, p), now);
  }

  /** A cleanup on the side of b alone: what it drops from b was not live in a either. */
  lemma DominatesAfterCleanup(a: seq<Entry>, b: seq<Entry>, before: int, now: int)
    requires Dominates(b, a, before) && before <= now
    ensures Dominates(Cleaned(b, now), a, now)
  {
    var live: set<Entry> :| Covers(live, a, before) && Keep(a, In(live)) <= b;
    var live' := set e | e in live && !Expired(e, now);
    KeepTwice(a, In(live), Unexpired(now), In(live'));
    KeepPrefix(Keep(a, In(live)), b, Unexpired(now));
    assert Covers(live', a, now);
  }

  lemma DominatesLater(a: seq<Entry>, b: seq<Entry>, before: int, now: int)
    requires Dominates(b, a, before) && before <= now
    ensures Dominates(b, a, now)
  {
    var live: set<Entry> :| Covers(live, a, before) && Keep(a, In(live)) <= b;
    assert Covers(live, a, now);
  }

  lemma DominatesLookup(a: seq<Entry>, b: seq<Entry>, k: string, now: int)
    requires Distinct(a) && Distinct(b) && Dominates(b, a, now)
    ensures Lookup(a, k, now).Some? ==> Lookup(b, k, now) == Lookup(a, k, now)
  {
    FindIff(a, Entry(k, "", 0));
    if Lookup(a, k, now).Some? {
      var e := Find(a, k).value;
      var live: set<Entry> :| Covers(live, a, now) && Keep(a, In(live)) <= b;
      KeepMembers(a, In(live));
      assert e in Keep(a, In(live));
      FindIff(b, e);
    }
  }

  lemma {:induction false} CutPoint(m: nat, n: nat, h: seq<Call>, longer: seq<Call>, now: int)
    requires m <= n && CleanupsInserted(h, longer) && Monotone(longer)
    requires longer != [] ==> Last(longer).now <= now
    ensures Dominates(Run(n, longer), Run(m, h), now)
  {
    if longer == [] {
      assert Covers({}, [], now) && Keep([], In({})) <= [];
    } else {
      var c := Last(longer);
      if c.op.Cleanup? && CleanupsInserted(h, Init(longer)) {
        CutPoint(m, n, h, Init(longer), c.now);
        DominatesAfterCleanup(Run(m, h), Run(n, Init(longer)), c.now, c.now);
        DominatesLater(Run(m, h), Run(n, longer), c.now, now);
      } else {
        var a, b := Run(m, Init(h)), Run(n, Init(longer));
        CutPoint(m, n, Init(h), Init(longer), c.now);
        match c.op {
          case Set(_, _, _) => DominatesAfterPut(m, n, a, b, Write(c.now, c.op), c.now);
          case Del(k) => DominatesAfterKeep(a, b, NotKey(k), c.now);
          case Cleanup => DominatesAfterKeep(a, b, Unexpired(c.now), c.now);
          case _ =>
        }
        DominatesLater(Run(m, h), Run(n, longer), c.now, now);
      }
    }
  }

  /**
   Inserting cleanups anywhere, and enlarging the capacity, turns no hit of `get` or `exists` into
   a miss and changes no value of such a hit.
   */
  lemma {:induction false} CleanupNeverLosesAHit(m: nat, n: nat, h: seq<Call>, longer: seq<Call>)
    requires m <= n && CleanupsInserted(h, longer) && Monotone(longer)
    ensures AtLeast(Replies(m, h), Replies(n, longer))
  {
    if longer != [] {
      var c := Last(longer);
      if c.op.Cleanup? && CleanupsInserted(h, Init(longer)) {
        CleanupNeverLosesAHit(m, n, h, Init(longer));
      } else {
        CleanupNeverLosesAHit(m, n, Init(h), Init(longer));
        CutPoint(m, n, Init(h), Init(longer), c.now);
        RunBounded(m, Init(h));
        RunBounded(n, Init(longer));
        if c.op.Get? || c.op.Exists? {
          DominatesLookup(Run(m, Init(h)), Run(n, Init(longer)), c.op.key, c.now);
        }
      }
    }
  }

  lemma {:induction false} AtLeastHits(r: seq<Reply>, s: seq<Reply>)
    requires AtLeast(r, s)
    ensures Hits(r) <= Hits(s) && Hits(r) + Misses(r) == Hits(s) + Misses(s)
  {
    if r != [] {
      AtLeastHits(r[..|r|-1], s[..|s|-1]);
    }
  }

  lemma {:induction false} CountConcat(r: seq<Reply>, s: seq<Reply>)
    ensures Hits(r + s) == Hits(r) + Hits(s) && Misses(r + s) == Misses(r) + Misses(s)
  {
    if s == [] {
      assert r + s == r;
    } else {
      CountConcat(r, s[..|s|-1]);
      assert (r + s)[..|r+s|-1] == r + s[..|s|-1];
    }
  }

  lemma {:induction false} HitsAndMissesAreGets(cap: nat, h: seq<Call>)
    ensures Hits(Replies(cap, h)) + Misses(Replies(cap, h)) == Gets(h)
  {
    if h != [] {
      HitsAndMissesAreGets(cap, Init(h));
      CountConcat(Replies(cap, Init(h)), Answer(Run(cap, Init(h)), Last(h)));
    }
  }

  lemma {:induction false} LargerCacheAnswersAtLeast(m: nat, n: nat, h: seq<Call>)
    requires m <= n
    ensures AtLeast(Replies(m, h), Replies(n, h))
  {
    if h != [] {
      var c := Last(h);
      LargerCacheAnswersAtLeast(m, n, Init(h));
      CapacityInclusion(m, n, Init(h));
      RunBounded(n, Init(h));
      if c.op.Get? || c.op.Exists? {
        PrefixLookup(Run(m, Init(h)), Run(n, Init(h)), c.op.key, c.now);
      }
    }
  }

  /** A larger cache answers the same timed calls with the same hits and more, get for get, at any clock readings. */
  lemma LargerCacheHitsMore(m: nat, n: nat, h: seq<Call>)
    requires m <= n
    ensures AtLeast(Replies(m, h), Replies(n, h))
    ensures Hits(Replies(m, h)) <= Hits(Replies(n, h))
    ensures Hits(Replies(m, h)) + Misses(Replies(m, h)) == Gets(h) == Hits(Replies(n, h)) + Misses(Replies(n, h))
  {
    LargerCacheAnswersAtLeast(m, n, h);
    AtLeastHits(Replies(m, h), Replies(n, h));
    HitsAndMissesAreGets(m, h);
    HitsAndMissesAreGets(n, h);
  }
}
