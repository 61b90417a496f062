/**
 The recency list of the cache, as a value.

 The cache keeps its keys in the order of their last `set`, newest first; `get` does not touch
 that order. An entry of the list carries what the key table holds for its key, so the list alone
 determines every answer of the cache. The concrete cache of module `LRUCaches` is proved against
 the functions of this module.
 */
module Recency {
  import opened Collections

  /** Clock readings are nanoseconds of a steady clock. */
  const NANOS_PER_SECOND: int := 1_000_000_000
  const DEFAULT_TTL: int := 24 * 3600 * NANOS_PER_SECOND

  datatype Option<+T> = None | Some(value: T)

  datatype Entry = Entry(key: string, value: string, expire: int)

  /** A non-positive number of seconds stands for the default of 24 hours. */
  function Expiry(now: int, ttl: int): int {
    if ttl > 0 then now + ttl * NANOS_PER_SECOND else now + DEFAULT_TTL
  }

  predicate Expired(e: Entry, now: int) {
    e.expire < now
  }

  // ---------- filtering ----------

  function Keep(order: seq<Entry>, p: Entry -> bool): seq<Entry> {
    if order == [] then []
    else (if p(order[0]) then [order[0]] else []) + Keep(order[1..], p)
  }

  function NotKey(k: string): Entry -> bool { (e: Entry) => e.key != k }

  function Unexpired(now: int): Entry -> bool { (e: Entry) => !Expired(e, now) }

  function Without(order: seq<Entry>, k: string): seq<Entry> {
    Keep(order, NotKey(k))
  }

  function Cleaned(order: seq<Entry>, now: int): seq<Entry> {
    Keep(order, Unexpired(now))
  }

  function Take(n: nat, order: seq<Entry>): seq<Entry> {
    if |order| <= n then order else order[..n]
  }

  /** `set`: the new entry goes to the front and the least recently set entries over capacity go. */
  function Put(cap: nat, order: seq<Entry>, e: Entry): seq<Entry> {
    Take(cap, [e] + Without(order, e.key))
  }

  function Find(order: seq<Entry>, k: string): Option<Entry> {
    if order == [] then None
    else if order[0].key == k then Some(order[0])
    else Find(order[1..], k)
  }

  /** What `get` returns at time `now`; `exists` is `Lookup(..).Some?`. */
  function Lookup(order: seq<Entry>, k: string, now: int): Option<string> {
    match Find(order, k)
    case None => None
    case Some(e) => if Expired(e, now) then None else Some(e.value)
  }

  ghost predicate Distinct(order: seq<Entry>) {
    forall i, j :: 0 <= i < j < |order| ==> order[i].key != order[j].key
  }

  // ---------- lemmas about filtering ----------

  lemma {:induction false} KeepMembers(order: seq<Entry>, p: Entry -> bool)
    ensures forall e :: e in Keep(order, p) <==> e in order && p(e)
    ensures |Keep(order, p)| <= |order|
  {
    if order != [] {
      KeepMembers(order[1..], p);
      assert order == [order[0]] + order[1..];
    }
  }

  lemma {:induction false} KeepConcat(a: seq<Entry>, b: seq<Entry>, p: Entry -> bool)
    ensures Keep(a + b, p) == Keep(a, p) + Keep(b, p)
  {
    if a == [] {
      assert a + b == b;
    } else {
      assert (a + b)[1..] == a[1..] + b && (a + b)[0] == a[0];
      KeepConcat(a[1..], b, p);
      Assoc(if p(a[0]) then [a[0]] else [], Keep(a[1..], p), Keep(b, p));
    }
  }

  lemma KeepPrefix(a: seq<Entry>, b: seq<Entry>, p: Entry -> bool)
    requires a <= b
    ensures Keep(a, p) <= Keep(b, p)
  {
    assert b == a + b[|a|..];
    KeepConcat(a, b[|a|..], p);
  }

  /** Filtering twice is filtering by any predicate that agrees with both on the list. */
  lemma {:induction false} KeepTwice(order: seq<Entry>, p: Entry -> bool, q: Entry -> bool, r: Entry -> bool)
    requires forall e :: e in order ==> (r(e) <==> p(e) && q(e))
    ensures Keep(Keep(order, p), q) == Keep(order, r)
  {
    if order != [] {
      assert forall e :: e in order[1..] ==> e in order;
      assert order[0] in order;
      KeepTwice(order[1..], p, q, r);
      KeepConcat(if p(order[0]) then [order[0]] else [], Keep(order[1..], p), q);
    }
  }

  lemma KeepCommutes(order: seq<Entry>, p: Entry -> bool, q: Entry -> bool)
    ensures Keep(Keep(order, p), q) == Keep(Keep(order, q), p)
  {
    var both := (e: Entry) => p(e) && q(e);
    KeepTwice(order, p, q, both);
    KeepTwice(order, q, p, both);
  }

  lemma {:induction false} KeepAll(order: seq<Entry>, p: Entry -> bool)
    requires forall e :: e in order ==> p(e)
    ensures Keep(order, p) == order
  {
    if order != [] {
      assert forall e :: e in order[1..] ==> e in order;
      KeepAll(order[1..], p);
    }
  }

  lemma {:induction false} KeepNone(order: seq<Entry>, p: Entry -> bool)
    requires forall e :: e in order ==> !p(e)
    ensures Keep(order, p) == []
  {
    if order != [] {
      assert forall e :: e in order[1..] ==> e in order;
      KeepNone(order[1..], p);
    }
  }

  lemma {:induction false} KeepDistinct(order: seq<Entry>, p: Entry -> bool)
    requires Distinct(order)
    ensures Distinct(Keep(order, p))
  {
    if order != [] {
      KeepDistinct(order[1..], p);
      KeepMembers(order[1..], p);
      var rest := Keep(order[1..], p);
      forall j | 0 <= j < |rest| ensures rest[j].key != order[0].key {
        assert rest[j] in order[1..];
      }
    }
  }

  lemma WithoutMiddle(a: seq<Entry>, e: Entry, b: seq<Entry>)
    requires forall f :: f in a || f in b ==> f.key != e.key
    ensures Without(a + ([e] + b), e.key) == a + b
  {
    var p := NotKey(e.key);
    assert Keep(a, p) == a by { KeepAll(a, p); }
    assert Keep(b, p) == b by { KeepAll(b, p); }
    assert Keep([e] + b, p) == b;
    KeepConcat(a, [e] + b, p);
  }

  /** Removing the key at position i closes the gap there and changes nothing else. */
  lemma WithoutAt(order: seq<Entry>, i: nat)
    requires Distinct(order) && i < |order|
    ensures Without(order, order[i].key) == order[..i] + order[i+1..]
  {
    assert order == order[..i] + ([order[i]] + order[i+1..]);
    WithoutMiddle(order[..i], order[i], order[i+1..]);
  }

  lemma WithoutAbsent(order: seq<Entry>, k: string)
    requires forall e :: e in order ==> e.key != k
    ensures Without(order, k) == order
  {
    KeepAll(order, NotKey(k));
  }

  lemma PutDistinct(cap: nat, order: seq<Entry>, e: Entry)
    requires Distinct(order)
    ensures Distinct(Put(cap, order, e)) && |Put(cap, order, e)| <= cap
  {
    KeepDistinct(order, NotKey(e.key));
    KeepMembers(order, NotKey(e.key));
    var rest := Without(order, e.key);
    forall j | 0 <= j < |rest| ensures rest[j].key != e.key {
      assert rest[j] in rest;
    }
  }

  /** A key is found exactly when the list has an entry for it, and that entry is the one found. */
  lemma {:induction false} FindIff(order: seq<Entry>, e: Entry)
    requires Distinct(order)
    ensures Find(order, e.key) == Some(e) <==> e in order
    ensures Find(order, e.key).Some? ==> Find(order, e.key).value in order && Find(order, e.key).value.key == e.key
    ensures Find(order, e.key) == None <==> forall f :: f in order ==> f.key != e.key
  {
    if order != [] {
      assert order == [order[0]] + order[1..];
      FindIff(order[1..], e);
      if order[0].key == e.key {
        forall f | f in order[1..] ensures f.key != e.key {
          var j :| 0 <= j < |order[1..]| && order[1..][j] == f;
          assert order[j+1] == f;
        }
      }
    }
  }

  /** Prefixes keep every hit, with its value. */
  lemma PrefixLookup(a: seq<Entry>, b: seq<Entry>, k: string, now: int)
    requires a <= b && Distinct(b)
    ensures Lookup(a, k, now).Some? ==> Lookup(b, k, now) == Lookup(a, k, now)
  {
    assert Distinct(a);
    FindIff(a, Entry(k, "", 0));
    if Find(a, k).Some? {
      assert Find(a, k).value in b;
      FindIff(b, Find(a, k).value);
    }
  }

  /** Put is monotone in the prefix order, for any two capacities in order. */
  lemma PutPrefix(m: nat, n: nat, a: seq<Entry>, b: seq<Entry>, e: Entry)
    requires m <= n && a <= b
    ensures Put(m, a, e) <= Put(n, b, e)
  {
    KeepPrefix(a, b, NotKey(e.key));
  }

  // ---------- lookups after an update ----------

  lemma {:induction false} FindWithout(order: seq<Entry>, k: string, x: string)
    ensures Find(Without(order, k), x) == if x == k then None else Find(order, x)
  {
    if order != [] {
      FindWithout(order[1..], k, x);
      var p := NotKey(k);
      var rest := Keep(order[1..], p);
      assert Keep(order, p) == if order[0].key != k then [order[0]] + rest else rest;
      assert ([order[0]] + rest)[1..] == rest;
    }
  }

  lemma LookupWithout(order: seq<Entry>, k: string, x: string, now: int)
    ensures Lookup(Without(order, k), x, now) == if x == k then None else Lookup(order, x, now)
  {
    FindWithout(order, k, x);
  }

  lemma {:induction false} FindTake(n: nat, order: seq<Entry>, x: string)
    ensures Find(Take(n, order), x) == Find(order, x) || Find(Take(n, order), x) == None
    ensures |order| <= n ==> Take(n, order) == order
  {
    if order != [] && n > 0 && order[0].key != x {
      FindTake(n - 1, order[1..], x);
      assert Take(n, order) == [order[0]] + Take(n - 1, order[1..]);
    }
  }

  /** After a `set` its key answers with its value, another key as before or, only over capacity, not at all. */
  lemma LookupPut(cap: nat, order: seq<Entry>, e: Entry, x: string, now: int)
    ensures x == e.key && cap > 0 ==>
              Lookup(Put(cap, order, e), x, now) == if Expired(e, now) then None else Some(e.value)
    ensures x != e.key ==>
              Lookup(Put(cap, order, e), x, now) == Lookup(order, x, now) || Lookup(Put(cap, order, e), x, now) == None
    ensures x != e.key && |order| < cap ==> Lookup(Put(cap, order, e), x, now) == Lookup(order, x, now)
  {
    var all := [e] + Without(order, e.key);
    FindTake(cap, all, x);
    assert all[1..] == Without(order, e.key);
    FindWithout(order, e.key, x);
    KeepMembers(order, NotKey(e.key));
    assert cap > 0 ==> Put(cap, order, e)[0] == e;
  }
}
