/**
 What an answer of the cache says about the history of calls, without mentioning the recency list:
 the value comes from the latest write of the key, and a key leaves by recency of `set`, never of `get`.
 */
module CacheAnswers {
  import opened Collections
  import opened Recency
  import opened CacheRuns

  /** The entry written by the last `set` of k that no `del` of k follows. */
  function LatestWrite(h: seq<Call>, k: string): Option<Entry> {
    if h == [] then None
    else
      match Last(h).op
      case Set(k', _, _) => if k' == k then Some(Write(Last(h).now, Last(h).op)) else LatestWrite(Init(h), k)
      case Del(k') => if k' == k then None else LatestWrite(Init(h), k)
      case _ => LatestWrite(Init(h), k)
  }

  /** The other keys set after the last `set` of k. */
  function SetSince(h: seq<Call>, k: string): set<string> {
    if h == [] then {}
    else
      match Last(h).op
      case Set(k', _, _) => if k' == k then {} else SetSince(Init(h), k) + {k'}
      case _ => SetSince(Init(h), k)
  }

  /** No cleanup of the history ran after e had expired. */
  ghost predicate NeverSwept(h: seq<Call>, e: Entry) {
    forall c :: c in h && c.op.Cleanup? ==> !Expired(e, c.now)
  }

  ghost predicate NoRemovals(h: seq<Call>) {
    forall c :: c in h ==> !c.op.Del? && !c.op.Cleanup?
  }

  /** The keys that stand before k in the list. */
  function Ahead(order: seq<Entry>, k: string): set<string> {
    if order == [] || order[0].key == k then {} else {order[0].key} + Ahead(order[1..], k)
  }

  lemma HeadDiffers(order: seq<Entry>, e: Entry)
    requires Distinct(order) && e in order && order[0] != e
    ensures order[0].key != e.key && e in order[1..]
  {
    var j :| 0 <= j < |order| && order[j] == e;
    assert order[1..][j-1] == e;
  }

  lemma KeepHead(order: seq<Entry>, p: Entry -> bool)
    requires order != []
    ensures if p(order[0]) then Keep(order, p) == [order[0]] + Keep(order[1..], p)
            else Keep(order, p) == Keep(order[1..], p)
    ensures p(order[0]) ==> Keep(order, p)[1..] == Keep(order[1..], p)
  {
  }

  lemma {:induction false} AheadKeep(order: seq<Entry>, p: Entry -> bool, e: Entry)
    requires Distinct(order) && e in order && p(e)
    ensures Ahead(Keep(order, p), e.key) <= Ahead(order, e.key)
  {
    if order[0] != e {
      HeadDiffers(order, e);
      AheadKeep(order[1..], p, e);
      KeepHead(order, p);
    }
  }

  lemma {:induction false} AheadWithout(order: seq<Entry>, k: string, e: Entry)
    requires Distinct(order) && e in order && e.key != k
    ensures Ahead(Without(order, k), e.key) == Ahead(order, e.key) - {k}
  {
    if order[0] != e {
      HeadDiffers(order, e);
      AheadWithout(order[1..], k, e);
      AheadApart(order, e);
      var p := NotKey(k);
      KeepHead(order, p);
    }
  }

  /** The first key stands ahead once only. */
  lemma AheadApart(order: seq<Entry>, e: Entry)
    requires Distinct(order) && order != []
    ensures order[0].key !in Ahead(order[1..], e.key)
  {
    AheadMembers(order[1..], e.key);
    forall f | f in order[1..] ensures f.key != order[0].key {
      var j :| 0 <= j < |order[1..]| && order[1..][j] == f;
      assert order[j+1] == f;
    }
  }

  lemma {:induction false} AheadMembers(order: seq<Entry>, k: string)
    ensures forall x :: x in Ahead(order, k) ==> exists f :: f in order && f.key == x
  {
    if order != [] && order[0].key != k {
      AheadMembers(order[1..], k);
      assert order[0] in order;
      forall x | x in Ahead(order[1..], k) ensures exists f :: f in order && f.key == x {
        var f :| f in order[1..] && f.key == x;
        assert f in order;
      }
    }
  }

  lemma AheadCons(x: Entry, rest: seq<Entry>, e: Entry)
    requires x.key != e.key
    ensures Ahead([x] + rest, e.key) == {x.key} + Ahead(rest, e.key)
    ensures e in [x] + rest <==> e in rest
  {
    assert ([x] + rest)[1..] == rest;
  }

  ghost predicate SurvivesWithAhead(cap: nat, order: seq<Entry>, e: Entry) {
    && (e in Take(cap, order) <==> |Ahead(order, e.key)| < cap)
    && (e in Take(cap, order) ==> Ahead(Take(cap, order), e.key) == Ahead(order, e.key))
  }

  lemma SurvivesBehind(cap: nat, x: Entry, rest: seq<Entry>, e: Entry)
    requires x.key != e.key && x.key !in Ahead(rest, e.key) && SurvivesWithAhead(cap, rest, e)
    ensures SurvivesWithAhead(cap + 1, [x] + rest, e)
  {
    var kept := Take(cap, rest);
    assert Take(cap + 1, [x] + rest) == [x] + kept;
    AheadCons(x, rest, e);
    AheadCons(x, kept, e);
    OneMore(x.key, Ahead(rest, e.key));
  }

  /** An entry survives truncation exactly when fewer keys than the capacity stand before it; these survive with it. */
  lemma {:induction false} AheadTake(cap: nat, order: seq<Entry>, e: Entry)
    requires Distinct(order) && e in order
    ensures SurvivesWithAhead(cap, order, e)
  {
    if cap == 0 || order[0] == e {
      SurvivesAtOnce(cap, order, e);
    } else {
      var x, rest := order[0], order[1..];
      assert order == [x] + rest;
      assert x.key != e.key && e in rest && x.key !in Ahead(rest, e.key) by {
        HeadDiffers(order, e);
        AheadApart(order, e);
      }
      AheadTake(cap - 1, rest, e);
      SurvivesBehind(cap - 1, x, rest, e);
    }
  }

  lemma SurvivesAtOnce(cap: nat, order: seq<Entry>, e: Entry)
    requires order != [] && (cap == 0 || order[0] == e)
    ensures SurvivesWithAhead(cap, order, e)
  {
    if cap == 0 {
      assert Take(cap, order) == [];
    } else {
      assert Take(cap, order)[0] == e;
    }
  }

  /** Whatever the cache holds under a key is the latest write of that key: no answer is ever stale. */
  lemma {:induction false} HoldsLatestWrites(cap: nat, h: seq<Call>)
    ensures forall e :: e in Run(cap, h) ==> LatestWrite(h, e.key) == Some(e)
  {
    if h != [] {
      var before, c := Run(cap, Init(h)), Last(h);
      HoldsLatestWrites(cap, Init(h));
      match c.op
      case Set(k, _, _) => KeepMembers(before, NotKey(k));
      case Del(k) => KeepMembers(before, NotKey(k));
      case Cleanup => KeepMembers(before, Unexpired(c.now));
      case _ =>
    }
  }

  /** A `set` of another key adds that key to those ahead of e, and keeps e while they are fewer than the capacity. */
  lemma PutAhead(cap: nat, order: seq<Entry>, w: Entry, e: Entry)
    requires Distinct(order) && e in order && e.key != w.key
    ensures e in Put(cap, order, w) <==> |{w.key} + Ahead(order, e.key)| < cap
    ensures e in Put(cap, order, w) ==> Ahead(Put(cap, order, w), e.key) == {w.key} + Ahead(order, e.key)
  {
    var rest := Without(order, w.key);
    KeepMembers(order, NotKey(w.key));
    AheadWithout(order, w.key, e);
    PutDistinct(|rest| + 1, order, w);
    AheadCons(w, rest, e);
    AheadTake(cap, [w] + rest, e);
    assert {w.key} + (Ahead(order, e.key) - {w.key}) == {w.key} + Ahead(order, e.key);
  }

  lemma PutMembers(cap: nat, order: seq<Entry>, w: Entry, e: Entry)
    requires Distinct(order) && e in Put(cap, order, w)
    ensures if e.key == w.key then e == w && cap > 0 && Put(cap, order, w)[0] == w else e in order
  {
    var all := [w] + Without(order, w.key);
    KeepMembers(order, NotKey(w.key));
    assert e in all;
  }

  /** A written key stays as long as it is not swept and fewer than cap other keys were set since. */
  lemma {:induction false} Retained(cap: nat, h: seq<Call>, e: Entry)
    requires LatestWrite(h, e.key) == Some(e) && NeverSwept(h, e) && |SetSince(h, e.key)| < cap
    ensures e in Run(cap, h) && Ahead(Run(cap, h), e.key) <= SetSince(h, e.key)
  {
    var before, c := Run(cap, Init(h)), Last(h);
    RunBounded(cap, Init(h));
    assert forall d :: d in Init(h) ==> d in h;
    assert c in h;
    if c.op.Set? && c.op.key == e.key {
      assert Run(cap, h)[0] == e;
    } else {
      SubsetSize(SetSince(Init(h), e.key), SetSince(h, e.key));
      Retained(cap, Init(h), e);
      match c.op {
        case Set(k, _, _) =>
          PutAhead(cap, before, Write(c.now, c.op), e);
          SubsetSize({k} + Ahead(before, e.key), SetSince(h, e.key));
        case Del(k) =>
          KeepMembers(before, NotKey(k));
          AheadWithout(before, k, e);
        case Cleanup =>
          KeepMembers(before, Unexpired(c.now));
          AheadKeep(before, Unexpired(c.now), e);
        case _ =>
      }
    }
  }

  /** Without removals the keys before an entry are exactly the keys set since, so it stays only while they fit. */
  lemma {:induction false} ResidentMeansRecent(cap: nat, h: seq<Call>, e: Entry)
    requires NoRemovals(h) && e in Run(cap, h)
    ensures Ahead(Run(cap, h), e.key) == SetSince(h, e.key) && |SetSince(h, e.key)| < cap
  {
    var before, c := Run(cap, Init(h)), Last(h);
    RunBounded(cap, Init(h));
    assert forall d :: d in Init(h) ==> d in h;
    assert c in h;
    if c.op.Set? {
      PutMembers(cap, before, Write(c.now, c.op), e);
      if e.key != c.op.key {
        ResidentMeansRecent(cap, Init(h), e);
        PutAhead(cap, before, Write(c.now, c.op), e);
      }
    } else {
      ResidentMeansRecent(cap, Init(h), e);
    }
  }

  /** A hit returns the latest write of the key, and that write has not expired. */
  lemma HitIsLatestWrite(cap: nat, h: seq<Call>, k: string, now: int)
    ensures match Lookup(Run(cap, h), k, now)
            case None => true
            case Some(v) => match LatestWrite(h, k)
                            case None => false
                            case Some(e) => e.value == v && !Expired(e, now)
  {
    RunBounded(cap, h);
    HoldsLatestWrites(cap, h);
    FindIff(Run(cap, h), Entry(k, "", 0));
  }

  /** An unexpired latest write answers as long as fewer than cap other keys were set after it. */
  lemma RecentWriteIsHit(cap: nat, h: seq<Call>, k: string, now: int)
    requires Monotone(h) && (h != [] ==> Last(h).now <= now)
    requires LatestWrite(h, k).Some? && !Expired(LatestWrite(h, k).value, now) && |SetSince(h, k)| < cap
    ensures Lookup(Run(cap, h), k, now) == Some(LatestWrite(h, k).value.value)
  {
    var e := LatestWrite(h, k).value;
    LatestWriteKey(h, k);
    Retained(cap, h, e);
    RunBounded(cap, h);
    FindIff(Run(cap, h), e);
  }

  /** After any history a key set with so many seconds to live answers up to and including that instant, not later. */
  lemma AnswersUntilExpiry(cap: nat, h: seq<Call>, k: string, v: string, ttl: int, t: int, now: int)
    requires cap > 0
    ensures var lives := if ttl > 0 then ttl * 1_000_000_000 else 86_400 * 1_000_000_000;
            Lookup(Run(cap, h + [At(t, Set(k, v, ttl))]), k, now) == if now <= t + lives then Some(v) else None
  {
    var all := h + [At(t, Set(k, v, ttl))];
    assert Init(all) == h && Last(all) == At(t, Set(k, v, ttl));
    assert Run(cap, all)[0] == Write(t, Set(k, v, ttl));
  }

  lemma {:induction false} LatestWriteKey(h: seq<Call>, k: string)
    ensures LatestWrite(h, k).Some? ==> LatestWrite(h, k).value.key == k
  {
    if h != [] {
      LatestWriteKey(Init(h), k);
    }
  }

  /**
   Eviction is by least recent `set`: with no removals, a key answers exactly when its latest write
   is unexpired and fewer than cap other keys were set after it, however often it was read meanwhile.
   */
  lemma EvictionIsByRecencyOfSet(cap: nat, h: seq<Call>, k: string, now: int)
    requires NoRemovals(h)
    ensures Lookup(Run(cap, h), k, now).Some?
            <==> LatestWrite(h, k).Some? && !Expired(LatestWrite(h, k).value, now) && |SetSince(h, k)| < cap
  {
    HitIsLatestWrite(cap, h, k, now);
    LatestWriteKey(h, k);
    RunBounded(cap, h);
    if LatestWrite(h, k).Some? {
      var e := LatestWrite(h, k).value;
      FindIff(Run(cap, h), e);
      if |SetSince(h, k)| < cap {
        Retained(cap, h, e);
      } else if e in Run(cap, h) {
        ResidentMeansRecent(cap, h, e);
      }
    }
    if Lookup(Run(cap, h), k, now).Some? {
      HoldsLatestWrites(cap, h);
      FindIff(Run(cap, h), Entry(k, "", 0));
    }
  }

  function Mutations(h: seq<Call>): seq<Call> {
    if h == [] then []
    else Mutations(Init(h)) + (if Last(h).op.Get? || Last(h).op.Exists? then [] else [Last(h)])
  }

  /** Reads leave no trace: dropping every `get` and `exists` from a history changes no list. */
  lemma {:induction false} ReadsAreInvisible(cap: nat, h: seq<Call>)
    ensures Run(cap, Mutations(h)) == Run(cap, h)
  {
    if h != [] {
      ReadsAreInvisible(cap, Init(h));
      var c := Last(h);
      if c.op.Get? || c.op.Exists? {
        assert Mutations(h) == Mutations(Init(h));
      } else {
        assert Mutations(h) == Mutations(Init(h)) + [c];
        assert Init(Mutations(h)) == Mutations(Init(h));
      }
    }
  }

  /** The calls of the repository's own test of recency, which expects the read to save key a. */
  function RecencyTest(): seq<Call> {
    [At(0, Set("a", "1", -1))] + [At(1, Set("b", "2", -1))] + [At(2, Set("c", "3", -1))] + [At(3, Get("a"))]
      + [At(4, Set("d", "4", -1))] + [At(5, Set("e", "5", -1))] + [At(6, Set("f", "6", -1))]
  }

  lemma SinceCall(h: seq<Call>, c: Call, k: string)
    requires c.op.Get? || c.op.Set?
    ensures SetSince(h + [c], k) ==
            if c.op.Get? then SetSince(h, k) else if c.op.key == k then {} else SetSince(h, k) + {c.op.key}
    ensures LatestWrite(h + [c], k) ==
            if c.op.Set? && c.op.key == k then Some(Write(c.now, c.op)) else LatestWrite(h, k)
    ensures NoRemovals(h) ==> NoRemovals(h + [c])
  {
    assert Init(h + [c]) == h;
  }

  lemma SetsOfFive()
    ensures |{"b", "c", "d", "e", "f"}| == 5 && |{"c", "d", "e", "f"}| == 4
  {
    assert {"b", "c", "d", "e", "f"} - {"b"} == {"c", "d", "e", "f"};
    assert {"c", "d", "e", "f"} - {"c"} == {"d", "e", "f"};
    assert {"d", "e", "f"} - {"d"} == {"e", "f"};
  }

  lemma RecencyTestWrites()
    ensures SetSince(RecencyTest(), "a") == {"b", "c", "d", "e", "f"}
    ensures SetSince(RecencyTest(), "b") == {"c", "d", "e", "f"}
    ensures LatestWrite(RecencyTest(), "a") == Some(Entry("a", "1", DEFAULT_TTL))
    ensures LatestWrite(RecencyTest(), "b") == Some(Entry("b", "2", 1 + DEFAULT_TTL))
    ensures NoRemovals(RecencyTest())
  {
    var h0 := [At(0, Set("a", "1", -1))];
    var c1, c2, c3 := At(1, Set("b", "2", -1)), At(2, Set("c", "3", -1)), At(3, Get("a"));
    var c4, c5, c6 := At(4, Set("d", "4", -1)), At(5, Set("e", "5", -1)), At(6, Set("f", "6", -1));
    var h1 := h0 + [c1];
    var h2 := h1 + [c2];
    var h3 := h2 + [c3];
    var h4 := h3 + [c4];
    var h5 := h4 + [c5];
    assert SetSince(h0, "a") == {};
    SinceCall(h0, c1, "a"); SinceCall(h0, c1, "b");
    SinceCall(h1, c2, "a"); SinceCall(h1, c2, "b");
    SinceCall(h2, c3, "a"); SinceCall(h2, c3, "b");
    SinceCall(h3, c4, "a"); SinceCall(h3, c4, "b");
    SinceCall(h4, c5, "a"); SinceCall(h4, c5, "b");
    SinceCall(h5, c6, "a"); SinceCall(h5, c6, "b");
  }

  /**
   On these calls the key that was read goes at every capacity up to 5, and the unread key set right after it
   up to 4 only: at the capacity of the test, 5, the read key is gone and the unread one answers.
   */
  lemma ReadDoesNotSaveFromEviction(cap: nat)
    ensures Lookup(Run(cap, RecencyTest()), "a", 7) == if cap > 5 then Some("1") else None
    ensures Lookup(Run(cap, RecencyTest()), "b", 7) == if cap > 4 then Some("2") else None
  {
    RecencyTestWrites();
    SetsOfFive();
    RecencyDecides(cap, RecencyTest(), "a", Entry("a", "1", DEFAULT_TTL), 7);
    RecencyDecides(cap, RecencyTest(), "b", Entry("b", "2", 1 + DEFAULT_TTL), 7);
  }

  lemma RecencyDecides(cap: nat, h: seq<Call>, k: string, e: Entry, now: int)
    requires NoRemovals(h) && LatestWrite(h, k) == Some(e) && !Expired(e, now)
    ensures Lookup(Run(cap, h), k, now) == if |SetSince(h, k)| < cap then Some(e.value) else None
  {
    EvictionIsByRecencyOfSet(cap, h, k, now);
    HitIsLatestWrite(cap, h, k, now);
  }
}
