/**
 What a key answers after a restart, told from the loaded pairs and the log alone; and two ways in
 which that differs from what the live cache said.
 */
module RestartAnswers {
  import opened Collections
  import opened Recency
  import opened WalLog
  import opened LogTears
  import opened Recovery
  import opened Rebuilding
  import opened CacheRuns
  import opened CacheAnswers
  import opened Residence
  import opened StoreRuns
  import opened Crashes
  import Snapshots

  // ---------- replay as a history of calls ----------

  /** A record as a call; one of an unknown operation is like a read, which changes nothing. */
  function CallOf(r: Record, now: int): Call {
    At(now, if r.op == "SET" then Set(r.key, r.value, -1) else if r.op == "DEL" then Del(r.key) else Get(r.key))
  }

  function Calls(rs: seq<Record>, ts: seq<int>): (h: seq<Call>)
    requires |rs| == |ts|
    ensures |h| == |rs| && forall i :: 0 <= i < |h| ==> h[i] == CallOf(rs[i], ts[i])
  {
    seq(|rs|, i requires 0 <= i < |rs| => CallOf(rs[i], ts[i]))
  }

  /** Replaying records is running the cache on their calls. */
  lemma {:induction false} ReplayIsRun(cap: nat, rs: seq<Record>, ts: seq<int>)
    requires |rs| == |ts|
    ensures ReplayOver(cap, [], rs, ts) == Run(cap, Calls(rs, ts))
  {
    if rs != [] {
      var n := |rs| - 1;
      ReplayIsRun(cap, rs[..n], ts[..n]);
      assert Init(Calls(rs, ts)) == Calls(rs[..n], ts[..n]);
      assert Last(Calls(rs, ts)) == CallOf(rs[n], ts[n]);
    }
  }

  /** The records as calls at no particular time. */
  function History(rs: seq<Record>): seq<Call> {
    Calls(rs, Zeros(|rs|))
  }

  // ---------- when a key answers after a restart ----------

  lemma RebuiltFinds(cap: nat, loaded: seq<Record>, rs: seq<Record>, k: string)
    ensures var h := History(loaded + rs);
            Find(Rebuilt(cap, loaded, rs), k) ==
            if Stays(cap, h, k) && LatestWrite(h, k).Some? then Some(Plain(LatestWrite(h, k).value)) else None
    ensures Stays(cap, History(loaded + rs), k) ==> LatestWrite(History(loaded + rs), k).Some?
  {
    var all := loaded + rs;
    ReplayIsRun(cap, all, Zeros(|all|));
    FindIffStays(cap, History(all), k);
    HeldIffStays(cap, History(all), k);
    StripLookup(Run(cap, History(all)), k);
  }

  /** Without deletions a key stays exactly while fewer keys than the capacity were set after it. */
  lemma StaysWithoutDeletions(cap: nat, rs: seq<Record>, k: string)
    requires forall r :: r in rs ==> r.op != "DEL"
    ensures Stays(cap, History(rs), k) <==> LatestWrite(History(rs), k).Some? && |SetSince(History(rs), k)| < cap
  {
    var h := History(rs);
    forall c | c in h ensures !c.op.Del? && !c.op.Cleanup? {
      var i :| 0 <= i < |h| && h[i] == c;
      assert rs[i] in rs;
    }
    HeldIffStays(cap, h, k);
    EvictionIsByRecencyOfSet(cap, h, k, 0);
    AnswerIff(cap, h, k, 0);
    assert forall i :: 0 <= i < |h| ==> h[i].now == Zeros(|rs|)[i];
    WritesLive(h, k);
  }

  lemma {:induction false} WritesLive(h: seq<Call>, k: string)
    requires forall i :: 0 <= i < |h| ==> h[i].now == 0
    ensures LatestWrite(h, k).Some? ==> !Expired(LatestWrite(h, k).value, 0)
  {
    if h != [] {
      WritesLive(Init(h), k);
    }
  }

  lemma UnexpiredFinds(order: seq<Entry>, k: string, now: int)
    requires Distinct(order) && forall e :: e in order ==> !Expired(e, now)
    ensures Lookup(order, k, now) ==
            match Find(Strip(order), k) case None => None case Some(e) => Some(e.value)
  {
    StripLookup(order, k);
    FindIff(order, Entry(k, "", 0));
  }

  /**
   At every time after a crash and a restart, a key answers if and only if it stays over the loaded pairs and
   the log, as calls at the clock readings of the restart, and its last write among these is unexpired. The
   answer is that write. Whether the key had expired before the crash, or been swept, makes no difference.
   */
  lemma AnswersAfterRestartIff(
    cfg: Config, steps: seq<Step>, n: nat, base: int, ks: seq<string>, ts: seq<int>, k: string, later: int)
    requires Legal(cfg, CrashAndRestart(steps, n, base, ks, ts))
    ensures var t := After(cfg, CrashAndRestart(steps, n, base, ks, ts));
      var rs := t.loaded + Replay(t.log);
      && |rs| == |ts|
      && var h := Calls(rs, ts);
         Lookup(t.order, k, later) ==
         if Stays(cfg.cap, h, k) && Live(h, k, later) then Some(LatestWrite(h, k).value.value) else None
  {
    CrashAndRestartIs(cfg, steps, n, base, ks, ts);
    var t := After(cfg, CrashAndRestart(steps, n, base, ks, ts));
    var rs := t.loaded + Replay(t.log);
    ReplayIsRun(cfg.cap, rs, ts);
    AnswerIff(cfg.cap, Calls(rs, ts), k, later);
  }

  /**
   Within a default time to live of the first clock reading of a restart no times matter: a key answers if
   and only if it stays over the loaded pairs and the log as calls without times, and when these delete
   nothing, if and only if some record sets it and fewer keys than the capacity are set after it.
   */
  lemma AnswersForADayIff(
    cfg: Config, steps: seq<Step>, n: nat, base: int, ks: seq<string>, ts: seq<int>, k: string, later: int)
    requires Legal(cfg, CrashAndRestart(steps, n, base, ks, ts)) && later <= base + DEFAULT_TTL
    ensures var t := After(cfg, CrashAndRestart(steps, n, base, ks, ts));
      var rs := t.loaded + Replay(t.log);
      var h := History(rs);
      && (Lookup(t.order, k, later).Some? <==> Stays(cfg.cap, h, k))
      && (Lookup(t.order, k, later).Some? ==>
          LatestWrite(h, k).Some? && Lookup(t.order, k, later).value == LatestWrite(h, k).value.value)
      && ((forall r :: r in rs ==> r.op != "DEL") ==>
          (Lookup(t.order, k, later).Some? <==> LatestWrite(h, k).Some? && |SetSince(h, k)| < cfg.cap))
  {
    var t := After(cfg, CrashAndRestart(steps, n, base, ks, ts));
    var rs := t.loaded + Replay(t.log);
    CrashLosesOnlyThePending(cfg, steps, n, base, ks, ts);
    RestartedLives(cfg, steps, n, base, ks, ts, later);
    UnexpiredFinds(t.order, k, later);
    RebuiltFinds(cfg.cap, t.loaded, Replay(t.log), k);
    if forall r :: r in rs ==> r.op != "DEL" {
      StaysWithoutDeletions(cfg.cap, rs, k);
    }
  }

  function Elements(ks: seq<string>): set<string> {
    set k | k in ks
  }

  lemma LoadedSnoc(ks: seq<string>, data: map<string, string>)
    requires ks != [] && forall k :: k in ks ==> k in data
    ensures var n, h := |ks| - 1, History(Sets(ks, data));
            Last(h) == At(0, Set(ks[n], data[ks[n]], -1)) && Init(h) == History(Sets(ks[..n], data))
  {
  }

  lemma ElementsSnoc(ks: seq<string>, i: nat)
    requires i + 1 < |ks|
    ensures Elements(ks[i+1..]) == Elements(ks[..|ks|-1][i+1..]) + {ks[|ks|-1]}
  {
    assert ks[i+1..] == ks[..|ks|-1][i+1..] + [ks[|ks|-1]];
  }

  /** The keys set after key i of the order are those visited later. */
  lemma {:induction false} SinceLoaded(ks: seq<string>, data: map<string, string>, i: nat)
    requires i < |ks| && forall k :: k in ks ==> k in data
    requires forall a, b :: 0 <= a < b < |ks| ==> ks[a] != ks[b]
    ensures LatestWrite(History(Sets(ks, data)), ks[i]).Some?
    ensures SetSince(History(Sets(ks, data)), ks[i]) == Elements(ks[i+1..])
  {
    var n := |ks| - 1;
    LoadedSnoc(ks, data);
    if i < n {
      SinceLoaded(ks[..n], data, i);
      ElementsSnoc(ks, i);
    }
  }

  /** Over capacity the order of loading a snapshot matters: exactly the last pairs visited that fit are cached. */
  lemma LoadedIff(cap: nat, ks: seq<string>, data: map<string, string>, i: nat)
    requires Snapshots.Enumerates(ks, data) && i < |ks|
    ensures Find(Rebuilt(cap, Sets(ks, data), []), ks[i]).Some? <==> |ks| - i <= cap
  {
    var rs := Sets(ks, data);
    assert rs + [] == rs;
    RebuiltFinds(cap, rs, [], ks[i]);
    StaysWithoutDeletions(cap, rs, ks[i]);
    SinceLoaded(ks, data, i);
    DistinctSize(ks[i+1..], Elements(ks[i+1..]));
  }

  // ---------- what a hit of the running store means ----------

  lemma RebuiltDistinct(cap: nat, loaded: seq<Record>, rs: seq<Record>)
    ensures Distinct(Rebuilt(cap, loaded, rs))
  {
    ReplayDistinct(cap, [], loaded + rs, Zeros(|loaded + rs|));
    StripDistinct(ReplayOver(cap, [], loaded + rs, Zeros(|loaded + rs|)));
  }

  /**
   No stale read across crashes: at any moment of a run that has been careful since its last restart, a hit is
   the last write of its key in the loaded pairs, the log and the pending write, and the key stays over these.
   */
  lemma HitIsLatestRecord(cfg: Config, steps: seq<Step>, k: string, now: int)
    requires Legal(cfg, steps) && CarefulSince(cfg.found, steps)
    ensures var s := After(cfg, steps);
      var h := History(s.loaded + (Replay(s.log) + PendingRecords(s)));
      Lookup(s.order, k, now).Some? ==>
        && Stays(cfg.cap, h, k) && LatestWrite(h, k).Some?
        && Lookup(s.order, k, now).value == LatestWrite(h, k).value.value
  {
    var s := After(cfg, steps);
    RunsKeepInvariant(cfg, steps);
    if s.up {
      LivePrefixHit(cfg.cap, s.order, s.loaded, Replay(s.log) + PendingRecords(s), k, now);
    }
  }

  lemma LivePrefixHit(cap: nat, order: seq<Entry>, loaded: seq<Record>, rs: seq<Record>, k: string, now: int)
    requires Strip(order) <= Rebuilt(cap, loaded, rs)
    ensures var h := History(loaded + rs);
      Lookup(order, k, now).Some? ==>
        && Stays(cap, h, k) && LatestWrite(h, k).Some?
        && Lookup(order, k, now).value == LatestWrite(h, k).value.value
  {
    RebuiltFinds(cap, loaded, rs, k);
    RebuiltDistinct(cap, loaded, rs);
    StripLookup(order, k);
    PrefixLookup(Strip(order), Rebuilt(cap, loaded, rs), k, 0);
  }

  // ---------- which hits survive a restart ----------

  lemma {:induction false} LatestLoaded(ks: seq<string>, data: map<string, string>, k: string)
    requires forall x :: x in ks ==> x in data
    ensures LatestWrite(History(Sets(ks, data)), k) ==
            if k in ks then Some(Entry(k, data[k], DEFAULT_TTL)) else None
  {
    if ks != [] {
      var n := |ks| - 1;
      LoadedSnoc(ks, data);
      LatestLoaded(ks[..n], data, k);
      assert ks == ks[..n] + [ks[n]];
    }
  }

  lemma HistorySnoc(rs: seq<Record>, r: Record)
    ensures History(rs + [r]) != [] && Init(History(rs + [r])) == History(rs) && Last(History(rs + [r])) == CallOf(r, 0)
  {
    assert Zeros(|rs + [r]|)[|rs|] == 0;
  }

  lemma LatestSnoc(a: seq<Record>, b: seq<Record>, r: Record, k: string)
    requires LatestWrite(History(a), k) == LatestWrite(History(b), k)
    ensures LatestWrite(History(a + [r]), k) == LatestWrite(History(b + [r]), k)
  {
    HistorySnoc(a, r);
    HistorySnoc(b, r);
  }

  lemma {:induction false} LatestAlike(a: seq<Record>, b: seq<Record>, rs: seq<Record>, k: string)
    requires LatestWrite(History(a), k) == LatestWrite(History(b), k)
    ensures LatestWrite(History(a + rs), k) == LatestWrite(History(b + rs), k)
  {
    if rs == [] {
      assert a + rs == a && b + rs == b;
    } else {
      var before, r := rs[..|rs|-1], rs[|rs|-1];
      LatestAlike(a, b, before, k);
      LatestSnoc(a + before, b + before, r, k);
      assert rs == before + [r];
      Assoc(a, before, [r]);
      Assoc(b, before, [r]);
    }
  }

  /** The last write of a key does not depend on the order of loading. */
  lemma LatestInAnyOrder(data: map<string, string>, ks: seq<string>, ks': seq<string>, rs: seq<Record>, k: string)
    requires Snapshots.Enumerates(ks, data) && Snapshots.Enumerates(ks', data)
    ensures LatestWrite(History(Sets(ks, data) + rs), k) == LatestWrite(History(Sets(ks', data) + rs), k)
  {
    LatestLoaded(ks, data, k);
    LatestLoaded(ks', data, k);
    LatestAlike(Sets(ks, data), Sets(ks', data), rs, k);
  }

  /**
   A hit at a command boundary of a run that has been careful since its last restart is the same hit after
   a crash and a restart that loads the snapshot in any order, for a default time to live, if and only if
   the key stays over the pairs in that order and the log; and otherwise it is a miss.
   */
  lemma HitSurvivesIff(
    cfg: Config, steps: seq<Step>, n: nat, base: int, ks: seq<string>, ts: seq<int>, k: string, now: int, later: int)
    requires Legal(cfg, CrashAndRestart(steps, n, base, ks, ts)) && later <= base + DEFAULT_TTL
    ensures Legal(cfg, steps) && forall x :: x in ks ==> x in Data(cfg)
    ensures var s, t := After(cfg, steps), After(cfg, CrashAndRestart(steps, n, base, ks, ts));
      CarefulSince(cfg.found, steps) && s.pending == None && Lookup(s.order, k, now).Some? ==>
      Lookup(t.order, k, later) ==
      if Stays(cfg.cap, History(Sets(ks, Data(cfg)) + Replay(s.log)), k) then Lookup(s.order, k, now) else None
  {
    CrashAndRestartIs(cfg, steps, n, base, ks, ts);
    var s := After(cfg, steps);
    if CarefulSince(cfg.found, steps) && s.pending == None && Lookup(s.order, k, now).Some? {
      assert s.log + "" == s.log && Replay(s.log) + [] == Replay(s.log);
      AnswersForADayIff(cfg, steps, n, base, ks, ts, k, later);
      HitIsLatestRecord(cfg, steps, k, now);
      RunsKeepInvariant(cfg, steps);
      var ks' :| Snapshots.Enumerates(ks', Data(cfg)) && s.loaded == Sets(ks', Data(cfg));
      LatestInAnyOrder(Data(cfg), ks, ks', Replay(s.log), k);
    }
  }

  // ---------- an expired key that returns ----------

  /** First start on an empty log, one write, acknowledged, and a cleanup at time now. */
  function WriteThenSweep(k: string, v: string, now: int): seq<Step> {
    [Restart(0, [], [])] + [Update("SET", k, v, 0)] + [AppendLog] + [Sweep(now)]
  }

  lemma SweptStore(cap: nat, k: string, v: string, now: int)
    requires cap > 0 && now > DEFAULT_TTL
    ensures var r, steps := Record("SET", k, v), WriteThenSweep(k, v, now);
      && Legal(Config(cap, "", ""), steps)
      && After(Config(cap, "", ""), steps) == Store(true, [], [], Encode(r), None, [Ack(r, 0)], now)
  {
    var cfg, e := Config(cap, "", ""), Entry(k, v, DEFAULT_TTL);
    ReplayStep("");
    Extend(cfg, [], Restart(0, [], []));
    Extend(cfg, [Restart(0, [], [])], Update("SET", k, v, 0));
    assert Put(cap, [], e) == [e];
    Extend(cfg, [Restart(0, [], [])] + [Update("SET", k, v, 0)], AppendLog);
    assert "" + Encode(Record("SET", k, v)) == Encode(Record("SET", k, v));
    Extend(cfg, [Restart(0, [], [])] + [Update("SET", k, v, 0)] + [AppendLog], Sweep(now));
    KeepNone([e], Unexpired(now));
  }

  lemma RestartFrom(cfg: Config, steps: seq<Step>, n: nat, base: int, ks: seq<string>, ts: seq<int>)
    requires Legal(cfg, steps) && After(cfg, steps).up && n <= |PendingBytes(After(cfg, steps))|
    requires Snapshots.Enumerates(ks, Data(cfg)) && Ascending(ts, base)
    requires |ts| == |ks| + |Replay(LogLeft(After(cfg, steps), n))|
    ensures Legal(cfg, CrashAndRestart(steps, n, base, ks, ts))
  {
    Extend(cfg, steps, Crash(n));
    Extend(cfg, steps + [Crash(n)], Restart(base, ks, ts));
  }

  lemma OneRecordLog(r: Record)
    requires Clean(r)
    ensures Replay(Encode(r)) == [r]
  {
    ReplayCons(r, "");
    ReplayStep("");
    assert Encode(r) + "" == Encode(r);
  }

  /**
   At every capacity a key that had expired and was swept away answers again after a crash and a restart:
   the log has no times.
   */
  lemma ExpiredKeyReturns(cap: nat, k: string, v: string, now: int, base: int)
    requires cap > 0 && Clean(Record("SET", k, v)) && now > DEFAULT_TTL
    ensures var cfg, steps := Config(cap, "", ""), WriteThenSweep(k, v, now);
      && Legal(cfg, steps) && Legal(cfg, CrashAndRestart(steps, 0, base, [], [base]))
      && Lookup(After(cfg, steps).order, k, now) == None
      && Lookup(After(cfg, CrashAndRestart(steps, 0, base, [], [base])).order, k, base) == Some(v)
  {
    var cfg, steps, r := Config(cap, "", ""), WriteThenSweep(k, v, now), Record("SET", k, v);
    SweptStore(cap, k, v, now);
    OneRecordLog(r);
    assert Encode(r) + "" == Encode(r);
    RestartFrom(cfg, steps, 0, base, [], [base]);
    CrashAndRestartIs(cfg, steps, 0, base, [], [base]);
    assert [] + [r] == [r];
    assert ReplayOver(cap, [], [r], [base]) == ApplyRecord(cap, [], r, base);
    FrontAnswers(cap, [], r, base);
  }

  // ---------- why commands must be serial ----------

  lemma FrontAnswers(cap: nat, order: seq<Entry>, r: Record, now: int)
    requires cap > 0 && r.op == "SET"
    ensures Lookup(ApplyRecord(cap, order, r, now), r.key, now) == Some(r.value)
  {
    assert ApplyRecord(cap, order, r, now)[0] == Entry(r.key, r.value, now + DEFAULT_TTL);
  }

  /**
   Two writers of one key whose cache updates and log appends cross: the live cache answers with the one
   that reached it last, recovery with the other. This is why commands are serial in the step machine.
   */
  lemma CrossedWritersDiverge(cap: nat, k: string, v: string, w: string, log: seq<Record>, ts: seq<int>, now: int)
    requires cap > 0 && |log| == |ts|
    ensures var a, b := Record("SET", k, v), Record("SET", k, w);
      var live := ApplyRecord(cap, ApplyRecord(cap, ReplayOver(cap, [], log, ts), a, now), b, now);
      var recovered := ReplayOver(cap, [], log + [b] + [a], ts + [now] + [now]);
      && Lookup(live, k, now) == Some(w) && Lookup(recovered, k, now) == Some(v)
      && (Lookup(live, k, now) == Lookup(recovered, k, now) <==> v == w)
  {
    var a, b := Record("SET", k, v), Record("SET", k, w);
    var rs, us := log + [b] + [a], ts + [now] + [now];
    var n := |rs| - 1;
    assert rs[..n] == log + [b] && us[..n] == ts + [now];
    FrontAnswers(cap, ApplyRecord(cap, ReplayOver(cap, [], log, ts), a, now), b, now);
    FrontAnswers(cap, ReplayOver(cap, [], rs[..n], us[..n]), a, now);
  }
}
