/**
 Recovery without the clock: the keys and values that a replay builds do not depend on the times, and
 under the one time to live that commands use, what expires first stands last.
 */
module Rebuilding {
  import opened Recency
  import opened WalLog
  import opened LogTears
  import opened Recovery

  // ---------- keys and values without expiry times ----------

  function Plain(e: Entry): Entry { e.(expire := 0) }

  function Strip(order: seq<Entry>): (r: seq<Entry>)
    ensures |r| == |order| && forall i :: 0 <= i < |r| ==> r[i] == Plain(order[i])
  {
    seq(|order|, i requires 0 <= i < |order| => Plain(order[i]))
  }

  lemma {:induction false} StripWithout(order: seq<Entry>, k: string)
    ensures Strip(Without(order, k)) == Without(Strip(order), k)
  {
    if order != [] {
      assert Strip(order)[1..] == Strip(order[1..]);
      StripWithout(order[1..], k);
      var rest := Without(order[1..], k);
      assert Strip([order[0]] + rest) == [Plain(order[0])] + Strip(rest);
    }
  }

  lemma StripPut(cap: nat, order: seq<Entry>, e: Entry)
    ensures Strip(Put(cap, order, e)) == Put(cap, Strip(order), Plain(e))
  {
    StripWithout(order, e.key);
    assert Strip([e] + Without(order, e.key)) == [Plain(e)] + Strip(Without(order, e.key));
  }

  /** Records act on lists with the same keys and values alike, at whatever times. */
  lemma StripApply(cap: nat, a: seq<Entry>, b: seq<Entry>, r: Record, now: int, now': int)
    requires Strip(a) <= Strip(b)
    ensures Strip(ApplyRecord(cap, a, r, now)) <= Strip(ApplyRecord(cap, b, r, now'))
    ensures Strip(a) == Strip(b) ==> Strip(ApplyRecord(cap, a, r, now)) == Strip(ApplyRecord(cap, b, r, now'))
  {
    var e, e' := Entry(r.key, r.value, Expiry(now, -1)), Entry(r.key, r.value, Expiry(now', -1));
    if r.op == "SET" {
      StripPut(cap, a, e);
      StripPut(cap, b, e');
      assert Plain(e) == Plain(e');
      PutPrefix(cap, cap, Strip(a), Strip(b), Plain(e));
    } else if r.op == "DEL" {
      StripWithout(a, r.key);
      StripWithout(b, r.key);
      KeepPrefix(Strip(a), Strip(b), NotKey(r.key));
    }
  }

  lemma {:induction false} StripReplay(cap: nat, rs: seq<Record>, ts: seq<int>, us: seq<int>)
    requires |rs| == |ts| == |us|
    ensures Strip(ReplayOver(cap, [], rs, ts)) == Strip(ReplayOver(cap, [], rs, us))
  {
    if rs != [] {
      var n := |rs| - 1;
      StripReplay(cap, rs[..n], ts[..n], us[..n]);
      var a, b := ReplayOver(cap, [], rs[..n], ts[..n]), ReplayOver(cap, [], rs[..n], us[..n]);
      StripApply(cap, a, b, rs[n], ts[n], us[n]);
    }
  }

  function Zeros(n: nat): (ts: seq<int>)
    ensures |ts| == n
  {
    seq(n, i => 0)
  }

  /** The keys and values that a restart builds from loaded pairs and log records; the times do not matter. */
  function Rebuilt(cap: nat, loaded: seq<Record>, rs: seq<Record>): seq<Entry> {
    Strip(ReplayOver(cap, [], loaded + rs, Zeros(|loaded + rs|)))
  }

  /** Whatever a log file holds, a restart builds what its replay gives, at whatever times. */
  lemma RestartIsRebuilt(cap: nat, loaded: seq<Record>, rs: seq<Record>, ts: seq<int>)
    requires |ts| == |loaded + rs|
    ensures Strip(ReplayOver(cap, [], loaded + rs, ts)) == Rebuilt(cap, loaded, rs)
  {
    StripReplay(cap, loaded + rs, ts, Zeros(|ts|));
  }

  lemma RebuiltStep(cap: nat, order: seq<Entry>, loaded: seq<Record>, rs: seq<Record>, r: Record, now: int)
    requires Strip(order) <= Rebuilt(cap, loaded, rs)
    ensures Strip(ApplyRecord(cap, order, r, now)) <= Rebuilt(cap, loaded, rs + [r])
    ensures Strip(order) == Rebuilt(cap, loaded, rs) ==>
            Strip(ApplyRecord(cap, order, r, now)) == Rebuilt(cap, loaded, rs + [r])
  {
    var all, all' := loaded + rs, loaded + (rs + [r]);
    assert all'[..|all|] == all && all'[|all|] == r;
    assert Zeros(|all'|)[..|all|] == Zeros(|all|);
    StripApply(cap, order, ReplayOver(cap, [], all, Zeros(|all|)), r, now, 0);
  }

  /** A record of an unknown operation changes nothing on replay. */
  lemma IdleRecord(cap: nat, loaded: seq<Record>, rs: seq<Record>, x: Record)
    requires !Writes(x)
    ensures Rebuilt(cap, loaded, rs + [x]) == Rebuilt(cap, loaded, rs)
  {
    var all := loaded + rs;
    RebuiltStep(cap, ReplayOver(cap, [], all, Zeros(|all|)), loaded, rs, x, 0);
  }

  lemma IdleBefore(cap: nat, loaded: seq<Record>, rs: seq<Record>, x: Record, r: Record)
    requires !Writes(x)
    ensures Rebuilt(cap, loaded, rs + [x] + [r]) == Rebuilt(cap, loaded, rs + [r])
  {
    var order := ReplayOver(cap, [], loaded + rs, Zeros(|loaded + rs|));
    IdleRecord(cap, loaded, rs, x);
    RebuiltStep(cap, order, loaded, rs, r, 0);
    RebuiltStep(cap, order, loaded, rs + [x], r, 0);
  }

  // ---------- ages ----------

  ghost predicate Ascending(ts: seq<int>, from: int) {
    (forall i :: 0 <= i < |ts| ==> from <= ts[i]) && (forall i, j :: 0 <= i < j < |ts| ==> ts[i] <= ts[j])
  }

  /** Newest first also means latest expiry first, and nothing outlives the default TTL from now. */
  ghost predicate Aging(order: seq<Entry>, now: int) {
    && (forall i, j :: 0 <= i < j < |order| ==> order[i].expire >= order[j].expire)
    && (forall i :: 0 <= i < |order| ==> order[i].expire <= now + DEFAULT_TTL)
  }

  lemma {:induction false} AgingKeep(order: seq<Entry>, p: Entry -> bool, now: int)
    requires Aging(order, now)
    ensures Aging(Keep(order, p), now)
  {
    if order != [] {
      AgingKeep(order[1..], p, now);
      KeepMembers(order[1..], p);
      var rest := Keep(order[1..], p);
      forall j | 0 <= j < |rest| ensures order[0].expire >= rest[j].expire {
        assert rest[j] in order[1..];
      }
    }
  }

  lemma AgingApply(cap: nat, order: seq<Entry>, r: Record, now: int, later: int)
    requires Aging(order, now) && now <= later
    ensures Aging(ApplyRecord(cap, order, r, later), later)
  {
    AgingKeep(order, NotKey(r.key), now);
  }

  /** Under one TTL for all, what has expired is a suffix of the list: a cleanup leaves a prefix. */
  lemma {:induction false} CleanedIsPrefix(order: seq<Entry>, now: int)
    requires forall i, j :: 0 <= i < j < |order| ==> order[i].expire >= order[j].expire
    ensures Cleaned(order, now) <= order
  {
    if order != [] {
      CleanedIsPrefix(order[1..], now);
      if Expired(order[0], now) {
        KeepNone(order, Unexpired(now));
      }
    }
  }

  lemma {:induction false} ReplayAges(cap: nat, rs: seq<Record>, ts: seq<int>, from: int)
    requires |rs| == |ts| && Ascending(ts, from)
    ensures Aging(ReplayOver(cap, [], rs, ts), if ts == [] then from else ts[|ts|-1])
    ensures forall e :: e in ReplayOver(cap, [], rs, ts) ==> e.expire >= from + DEFAULT_TTL
  {
    if rs != [] {
      var n := |rs| - 1;
      var before := ReplayOver(cap, [], rs[..n], ts[..n]);
      ReplayAges(cap, rs[..n], ts[..n], from);
      AgingApply(cap, before, rs[n], if n == 0 then from else ts[n-1], ts[n]);
      KeepMembers(before, NotKey(rs[n].key));
    }
  }
}
