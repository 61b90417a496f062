/**
 Rebuilding the cache: what replaying snapshot pairs and log records gives, and when the pairs make no
 difference.
 */
module Recovery {
  import opened Recency
  import opened WalLog

  // ---------- replay ----------

  /** One record applied to the cache at time `now`; operations other than SET and DEL do nothing. */
  function ApplyRecord(cap: nat, order: seq<Entry>, r: Record, now: int): seq<Entry> {
    if r.op == "SET" then Put(cap, order, Entry(r.key, r.value, Expiry(now, -1)))
    else if r.op == "DEL" then Without(order, r.key)
    else order
  }

  // ---------- one record, in answers and in bytes ----------

  lemma EncodedDel(k: string)
    ensures Encode(Record("DEL", k, "")) == "DEL " + k + "\n"
  {
    assert "DEL" + " " == "DEL ";
  }

  lemma EncodedSet(k: string, v: string)
    ensures Encode(Record("SET", k, v)) == "SET " + k + (if v == "" then "" else " " + v) + "\n"
  {
    assert "SET" + " " == "SET ";
  }

  lemma AppliedSet(cap: nat, order: seq<Entry>, k: string, v: string, now: int, x: string, t: int)
    requires cap > 0
    ensures var after := ApplyRecord(cap, order, Record("SET", k, v), now);
      && Lookup(after, k, t) == (if t <= now + 86_400_000_000_000 then Some(v) else None)
      && (x != k ==>
          || Lookup(after, x, t) == Lookup(order, x, t)
          || (|order| >= cap && Lookup(after, x, t) == None))
  {
    LookupPut(cap, order, Entry(k, v, Expiry(now, -1)), k, t);
    LookupPut(cap, order, Entry(k, v, Expiry(now, -1)), x, t);
  }

  lemma AppliedDel(cap: nat, order: seq<Entry>, k: string, now: int, x: string, t: int)
    ensures Lookup(ApplyRecord(cap, order, Record("DEL", k, ""), now), x, t) ==
            if x == k then None else Lookup(order, x, t)
  {
    LookupWithout(order, k, x, t);
  }

  // ---------- many records ----------

  /** Records applied in order, record i at time ts[i]. */
  function ReplayOver(cap: nat, order: seq<Entry>, rs: seq<Record>, ts: seq<int>): seq<Entry>
    requires |rs| == |ts|
  {
    if rs == [] then order
    else
      var n := |rs| - 1;
      ApplyRecord(cap, ReplayOver(cap, order, rs[..n], ts[..n]), rs[n], ts[n])
  }

  /** The `set` calls that loading snapshot pairs amounts to. */
  function Sets(ks: seq<string>, data: map<string, string>): (rs: seq<Record>)
    requires forall k :: k in ks ==> k in data
    ensures |rs| == |ks|
    ensures forall i :: 0 <= i < |ks| ==> rs[i] == Record("SET", ks[i], data[ks[i]])
  {
    seq(|ks|, i requires 0 <= i < |ks| => Record("SET", ks[i], data[ks[i]]))
  }

  lemma {:induction false} ReplayConcat(
    cap: nat, order: seq<Entry>, rs: seq<Record>, ts: seq<int>, rs': seq<Record>, ts': seq<int>)
    requires |rs| == |ts| && |rs'| == |ts'|
    ensures ReplayOver(cap, order, rs + rs', ts + ts') == ReplayOver(cap, ReplayOver(cap, order, rs, ts), rs', ts')
  {
    if rs' == [] {
      assert rs + rs' == rs && ts + ts' == ts;
    } else {
      var n := |rs'| - 1;
      assert (rs + rs')[..|rs|+n] == rs + rs'[..n] && (ts + ts')[..|ts|+n] == ts + ts'[..n];
      ReplayConcat(cap, order, rs, ts, rs'[..n], ts'[..n]);
    }
  }

  lemma {:induction false} ReplayDistinct(cap: nat, order: seq<Entry>, rs: seq<Record>, ts: seq<int>)
    requires |rs| == |ts| && Distinct(order) && |order| <= cap
    ensures Distinct(ReplayOver(cap, order, rs, ts)) && |ReplayOver(cap, order, rs, ts)| <= cap
  {
    if rs != [] {
      var n := |rs| - 1;
      ReplayDistinct(cap, order, rs[..n], ts[..n]);
      ApplyDistinct(cap, ReplayOver(cap, order, rs[..n], ts[..n]), rs[n], ts[n]);
    }
  }

  lemma ApplyDistinct(cap: nat, order: seq<Entry>, r: Record, now: int)
    requires Distinct(order) && |order| <= cap
    ensures Distinct(ApplyRecord(cap, order, r, now)) && |ApplyRecord(cap, order, r, now)| <= cap
  {
    PutDistinct(cap, order, Entry(r.key, r.value, Expiry(now, -1)));
    KeepDistinct(order, NotKey(r.key));
    KeepMembers(order, NotKey(r.key));
  }

  // ---------- snapshot and log against log alone ----------

  function Touched(rs: seq<Record>): set<string> {
    set r | r in rs && (r.op == "SET" || r.op == "DEL") :: r.key
  }

  function KeyNotIn(keys: set<string>): Entry -> bool { (e: Entry) => e.key !in keys }

  lemma LeftoversStep(cap: nat, a: seq<Entry>, l: seq<Entry>, start: seq<Entry>, keys: set<string>, r: Record, now: int)
    returns (l': seq<Entry>)
    requires l <= Keep(start, KeyNotIn(keys))
    ensures ApplyRecord(cap, a + l, r, now) == ApplyRecord(cap, a, r, now) + l'
    ensures l' <= Keep(start, KeyNotIn(keys + Touched([r])))
  {
    var k := r.key;
    if r.op == "SET" || r.op == "DEL" {
      assert r in [r] && Touched([r]) == {k};
      KeepConcat(a, l, NotKey(k));
      KeepPrefix(l, Keep(start, KeyNotIn(keys)), NotKey(k));
      KeepTwice(start, KeyNotIn(keys), NotKey(k), KeyNotIn(keys + {k}));
      if r.op == "DEL" {
        l' := Without(l, k);
      } else {
        var front := [Entry(k, r.value, Expiry(now, -1))] + Without(a, k);
        l' := if |front| >= cap then [] else Take(cap - |front|, Without(l, k));
        assert [Entry(k, r.value, Expiry(now, -1))] + Without(a + l, k) == front + Without(l, k);
      }
    } else {
      assert Touched([r]) == {};
      assert keys + {} == keys;
      l' := l;
    }
  }

  /**
   Replaying a log over any starting cache gives the replay from empty, followed only by entries of
   the starting cache, in their order, whose keys the log never touches.
   */
  lemma {:induction false} Leftovers(cap: nat, start: seq<Entry>, rs: seq<Record>, ts: seq<int>) returns (l: seq<Entry>)
    requires |rs| == |ts|
    ensures ReplayOver(cap, start, rs, ts) == ReplayOver(cap, [], rs, ts) + l
    ensures l <= Keep(start, KeyNotIn(Touched(rs)))
  {
    if rs == [] {
      l := start;
      KeepAll(start, KeyNotIn(Touched(rs)));
    } else {
      var n := |rs| - 1;
      l := Leftovers(cap, start, rs[..n], ts[..n]);
      assert rs == rs[..n] + [rs[n]];
      assert Touched(rs) == Touched(rs[..n]) + Touched([rs[n]]);
      l := LeftoversStep(cap, ReplayOver(cap, [], rs[..n], ts[..n]), l, start, Touched(rs[..n]), rs[n], ts[n]);
    }
  }

  /**
   Loading a snapshot whose keys the log all touches, in any order, and then replaying the log equals
   replaying the log alone.
   */
  lemma SnapshotThenLog(
    cap: nat, ks: seq<string>, data: map<string, string>, ts: seq<int>, log: seq<Record>, us: seq<int>)
    requires forall k :: k in ks ==> k in data && k in Touched(log)
    requires |ts| == |ks| && |us| == |log|
    ensures ReplayOver(cap, [], Sets(ks, data) + log, ts + us) == ReplayOver(cap, [], log, us)
  {
    var rs := Sets(ks, data);
    var start := ReplayOver(cap, [], rs, ts);
    ReplayConcat(cap, [], rs, ts, log, us);
    HoldsTouched(cap, rs, ts);
    forall e | e in start ensures !KeyNotIn(Touched(log))(e) {
      var r :| r in rs && r.key == e.key;
    }
    KeepNone(start, KeyNotIn(Touched(log)));
    var l := Leftovers(cap, start, log, us);
  }

  lemma {:induction false} HoldsTouched(cap: nat, rs: seq<Record>, ts: seq<int>)
    requires |rs| == |ts|
    ensures forall e :: e in ReplayOver(cap, [], rs, ts) ==> e.key in Touched(rs)
  {
    if rs != [] {
      var n := |rs| - 1;
      HoldsTouched(cap, rs[..n], ts[..n]);
      assert rs == rs[..n] + [rs[n]];
      KeepMembers(ReplayOver(cap, [], rs[..n], ts[..n]), NotKey(rs[n].key));
    }
  }

  lemma {:induction false} FindsAll(order: seq<Entry>)
    ensures forall e :: e in order ==> Find(order, e.key).Some?
  {
    if order != [] {
      FindsAll(order[1..]);
      assert order == [order[0]] + order[1..];
    }
  }

  /** What a snapshot of the cache holds: the value found under each key. */
  function Contents(order: seq<Entry>): (m: map<string, string>)
    ensures forall k :: k in m <==> exists e :: e in order && e.key == k
    ensures forall k :: k in m ==> Find(order, k) != None && m[k] == Find(order, k).value.value
  {
    FindsAll(order);
    var keys := set e | e in order :: e.key;
    map k | k in keys && Find(order, k).Some? :: Find(order, k).value.value
  }

  lemma ContentsTouched(cap: nat, log: seq<Record>, i: nat, vs: seq<int>)
    requires i <= |log| && |vs| == i
    ensures forall k :: k in Contents(ReplayOver(cap, [], log[..i], vs)) ==> k in Touched(log)
  {
    var live := ReplayOver(cap, [], log[..i], vs);
    HoldsTouched(cap, log[..i], vs);
    assert forall k :: k in Contents(live) ==> exists e :: e in live && e.key == k;
    assert Touched(log[..i]) <= Touched(log) by {
      assert forall r :: r in log[..i] ==> r in log;
    }
  }

  /**
   A snapshot of the cache taken at any point i of the history of a log, loaded in any order ks before
   the whole log is replayed, makes no difference to what recovery builds.
   */
  lemma SnapshotAnywhere(cap: nat, log: seq<Record>, i: nat, vs: seq<int>, ks: seq<string>, ts: seq<int>, us: seq<int>)
    requires i <= |log| && |vs| == i && |us| == |log| && |ts| == |ks|
    requires forall k :: k in ks ==> k in Contents(ReplayOver(cap, [], log[..i], vs))
    ensures var data := Contents(ReplayOver(cap, [], log[..i], vs));
            ReplayOver(cap, [], Sets(ks, data) + log, ts + us) == ReplayOver(cap, [], log, us)
  {
    ContentsTouched(cap, log, i, vs);
    SnapshotThenLog(cap, ks, Contents(ReplayOver(cap, [], log[..i], vs)), ts, log, us);
  }
}
