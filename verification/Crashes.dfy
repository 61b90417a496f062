/**
 A crash and the restart after it: what is lost, what a torn append turns into, and what it does to the
 next write.
 */
module Crashes {
  import opened Recency
  import opened WalLog
  import opened LogTears
  import opened Recovery
  import opened Rebuilding
  import opened StoreRuns
  import Snapshots

  function CrashAndRestart(steps: seq<Step>, n: nat, base: int, ks: seq<string>, ts: seq<int>): seq<Step> {
    steps + [Crash(n)] + [Restart(base, ks, ts)]
  }

  /** The log after a crash that left n bytes of the pending line. */
  function LogLeft(s: Store, n: nat): string
    requires n <= |PendingBytes(s)|
  {
    s.log + PendingBytes(s)[..n]
  }

  lemma CrashAndRestartIs(cfg: Config, steps: seq<Step>, n: nat, base: int, ks: seq<string>, ts: seq<int>)
    requires Legal(cfg, CrashAndRestart(steps, n, base, ks, ts))
    ensures Legal(cfg, steps) && After(cfg, steps).up && n <= |PendingBytes(After(cfg, steps))|
    ensures Snapshots.Enumerates(ks, Data(cfg)) && Ascending(ts, base)
    ensures |ts| == |Sets(ks, Data(cfg)) + Replay(LogLeft(After(cfg, steps), n))|
    ensures After(cfg, CrashAndRestart(steps, n, base, ks, ts)) ==
      var s, loaded := After(cfg, steps), Sets(ks, Data(cfg));
      var down := s.(up := false, order := [], log := LogLeft(s, n), pending := None);
      Restarted(cfg.cap, down, loaded, Replay(LogLeft(s, n)), base, ts)
    ensures Careful(cfg.found, CrashAndRestart(steps, n, base, ks, ts)) <==> Careful(cfg.found, steps)
  {
    var crashed := steps + [Crash(n)];
    var all := CrashAndRestart(steps, n, base, ks, ts);
    assert all[..|all|-1] == crashed && crashed[..|steps|] == steps;
    assert all[|all|-1] == Restart(base, ks, ts) && crashed[|steps|] == Crash(n);
  }

  lemma CrashKeepsLog(cfg: Config, steps: seq<Step>, n: nat, base: int, ks: seq<string>, ts: seq<int>)
    requires Legal(cfg, CrashAndRestart(steps, n, base, ks, ts))
    ensures Legal(cfg, steps) && n <= |PendingBytes(After(cfg, steps))|
    ensures var s, t := After(cfg, steps), After(cfg, CrashAndRestart(steps, n, base, ks, ts));
            t.log == LogLeft(s, n) && t.acked == s.acked
  {
    CrashAndRestartIs(cfg, steps, n, base, ks, ts);
  }

  lemma PendingWrites(cfg: Config, steps: seq<Step>)
    requires Legal(cfg, steps)
    ensures After(cfg, steps).pending.Some? ==> Writes(After(cfg, steps).pending.value)
  {
    RunsKeepInvariant(cfg, steps);
  }

  // ---------- what a crash loses ----------

  /** Loading in the order ks makes no difference: it is the order of the last restart, or the log touches every key. */
  ghost predicate LoadsAlike(cfg: Config, s: Store, ks: seq<string>) {
    && Snapshots.Enumerates(ks, Data(cfg))
    && (Sets(ks, Data(cfg)) == s.loaded || forall k :: k in ks ==> k in Touched(Replay(s.log)))
  }

  lemma TouchedLoads(cap: nat, data: map<string, string>, ks: seq<string>, log: seq<Record>)
    requires forall k :: k in ks ==> k in data && k in Touched(log)
    ensures Rebuilt(cap, Sets(ks, data), log) == Rebuilt(cap, [], log)
  {
    var us := Zeros(|log|);
    var n := |ks|;
    SnapshotThenLog(cap, ks, data, Zeros(n), log, us);
    assert Zeros(n) + us == Zeros(|Sets(ks, data) + log|);
    assert [] + log == log;
  }

  lemma LoadsRebuildAlike(cfg: Config, s: Store, ks: seq<string>)
    requires LoadedFrom(cfg, s.loaded) && LoadsAlike(cfg, s, ks)
    ensures Rebuilt(cfg.cap, Sets(ks, Data(cfg)), Replay(s.log)) == Rebuilt(cfg.cap, s.loaded, Replay(s.log))
  {
    if Sets(ks, Data(cfg)) != s.loaded {
      var ks' :| Snapshots.Enumerates(ks', Data(cfg)) && s.loaded == Sets(ks', Data(cfg));
      TouchedLoads(cfg.cap, Data(cfg), ks, Replay(s.log));
      TouchedLoads(cfg.cap, Data(cfg), ks', Replay(s.log));
    }
  }

  /**
   At every command boundary of a run that has been careful since its last restart, the live list is a
   prefix, key for key and value for value, of the list that recovery would build from the files at that
   moment, whenever it were run.
   */
  lemma LiveIsPrefixOfRecovered(cfg: Config, steps: seq<Step>, ks: seq<string>, ts: seq<int>)
    requires Legal(cfg, steps) && CarefulSince(cfg.found, steps)
    requires After(cfg, steps).up && After(cfg, steps).pending == None && LoadsAlike(cfg, After(cfg, steps), ks)
    requires |ts| == |Sets(ks, Data(cfg)) + Replay(After(cfg, steps).log)|
    ensures Strip(After(cfg, steps).order) <=
            Strip(ReplayOver(cfg.cap, [], Sets(ks, Data(cfg)) + Replay(After(cfg, steps).log), ts))
  {
    var s := After(cfg, steps);
    RunsKeepInvariant(cfg, steps);
    LoadsRebuildAlike(cfg, s, ks);
    RestartIsRebuilt(cfg.cap, Sets(ks, Data(cfg)), Replay(s.log), ts);
    assert Replay(s.log) + [] == Replay(s.log);
  }

  /**
   A crash at any moment, after any number of bytes of a pending line, and a restart at any clock: the
   acknowledged writes are the same and stand where they stood, and each is still read back as itself when
   the run was careful. The restart builds what the log now gives; before the crash of a run that had been
   careful since its last restart, the live list was a prefix of what the log and the pending write gave.
   */
  lemma CrashLosesOnlyThePending(cfg: Config, steps: seq<Step>, n: nat, base: int, ks: seq<string>, ts: seq<int>)
    requires Legal(cfg, CrashAndRestart(steps, n, base, ks, ts))
    ensures Legal(cfg, steps) && n <= |PendingBytes(After(cfg, steps))|
    ensures var s, t := After(cfg, steps), After(cfg, CrashAndRestart(steps, n, base, ks, ts));
      && t.up && t.pending == None && t.acked == s.acked && t.log == LogLeft(s, n)
      && (n == 0 ==> t.log == s.log) && t.clock == (if ts == [] then base else ts[|ts|-1])
      && (Kept(t.log, t.acked) <==> Careful(cfg.found, steps))
      && Strip(t.order) == Rebuilt(cfg.cap, t.loaded, Replay(t.log))
      && (CarefulSince(cfg.found, steps) ==>
          Strip(s.order) <= Rebuilt(cfg.cap, s.loaded, Replay(s.log) + PendingRecords(s)))
  {
    CrashAndRestartIs(cfg, steps, n, base, ks, ts);
    var s, t := After(cfg, steps), After(cfg, CrashAndRestart(steps, n, base, ks, ts));
    RunsKeepInvariant(cfg, steps);
    AcksReadBackIff(cfg, CrashAndRestart(steps, n, base, ks, ts));
    RestartIsRebuilt(cfg.cap, t.loaded, Replay(t.log), ts);
    assert s.log + "" == s.log;
  }

  lemma StripDistinct(order: seq<Entry>)
    requires Distinct(order)
    ensures Distinct(Strip(order))
  {
  }

  lemma {:induction false} StripLookup(order: seq<Entry>, k: string)
    ensures Find(Strip(order), k) == match Find(order, k) case None => None case Some(e) => Some(Plain(e))
  {
    if order != [] {
      assert Strip(order)[1..] == Strip(order[1..]);
      StripLookup(order[1..], k);
    }
  }

  lemma SameHit(a: seq<Entry>, b: seq<Entry>, k: string, now: int, later: int)
    requires Strip(a) <= Strip(b) && Distinct(b) && forall e :: e in b ==> !Expired(e, later)
    ensures Lookup(a, k, now).Some? ==> Lookup(b, k, later) == Lookup(a, k, now)
  {
    StripLookup(a, k);
    StripLookup(b, k);
    FindIff(b, Entry(k, "", 0));
    StripDistinct(b);
    PrefixLookup(Strip(a), Strip(b), k, 0);
  }

  /** Nothing a restart loads expires within a default TTL of its first clock reading. */
  lemma RestartedLives(cfg: Config, steps: seq<Step>, n: nat, base: int, ks: seq<string>, ts: seq<int>, later: int)
    requires Legal(cfg, CrashAndRestart(steps, n, base, ks, ts)) && later <= base + DEFAULT_TTL
    ensures var t := After(cfg, CrashAndRestart(steps, n, base, ks, ts));
            Distinct(t.order) && forall e :: e in t.order ==> !Expired(e, later)
  {
    CrashAndRestartIs(cfg, steps, n, base, ks, ts);
    var all := Sets(ks, Data(cfg)) + Replay(LogLeft(After(cfg, steps), n));
    ReplayDistinct(cfg.cap, [], all, ts);
    ReplayAges(cfg.cap, all, ts, base);
  }

  /**
   Every hit at a command boundary of a run that has been careful since its last restart is the same hit
   after a crash and a restart, for a full default TTL from the clock reading that restart begins at.
   */
  lemma HitsSurviveCrash(
    cfg: Config, steps: seq<Step>, n: nat, base: int, ks: seq<string>, ts: seq<int>, k: string, now: int, later: int)
    requires Legal(cfg, CrashAndRestart(steps, n, base, ks, ts))
    ensures Legal(cfg, steps)
    ensures var s, t := After(cfg, steps), After(cfg, CrashAndRestart(steps, n, base, ks, ts));
      CarefulSince(cfg.found, steps) && s.pending == None && LoadsAlike(cfg, s, ks)
      && later <= base + DEFAULT_TTL && Lookup(s.order, k, now).Some? ==>
        Lookup(t.order, k, later) == Lookup(s.order, k, now)
  {
    CrashAndRestartIs(cfg, steps, n, base, ks, ts);
    var s, t := After(cfg, steps), After(cfg, CrashAndRestart(steps, n, base, ks, ts));
    if CarefulSince(cfg.found, steps) && s.pending == None && LoadsAlike(cfg, s, ks) && later <= base + DEFAULT_TTL {
      assert s.log + "" == s.log;
      LiveIsPrefixOfRecovered(cfg, steps, ks, ts);
      RestartedLives(cfg, steps, n, base, ks, ts, later);
      SameHit(s.order, t.order, k, now, later);
    }
  }

  /**
   In plain terms: when all commands are clean and nothing was appended to a torn log since the last
   restart, the live list at a command boundary is a prefix of what a crash and a restart then build, and
   every hit is the same hit afterwards.
   */
  lemma CleanRunsRecover(
    cfg: Config, steps: seq<Step>, n: nat, base: int, ks: seq<string>, ts: seq<int>, k: string, now: int, later: int)
    requires Legal(cfg, CrashAndRestart(steps, n, base, ks, ts)) && CleanCommands(steps)
    requires NoAppendTorn(cfg.found, steps, LastRestart(steps))
    ensures Legal(cfg, steps)
    ensures var s, t := After(cfg, steps), After(cfg, CrashAndRestart(steps, n, base, ks, ts));
      s.pending == None && LoadsAlike(cfg, s, ks) ==>
        && Strip(s.order) <= Strip(t.order)
        && (later <= base + DEFAULT_TTL && Lookup(s.order, k, now).Some? ==>
            Lookup(t.order, k, later) == Lookup(s.order, k, now))
  {
    CrashAndRestartIs(cfg, steps, n, base, ks, ts);
    CleanRunsCarefulIff(cfg, steps);
    HitsSurviveCrash(cfg, steps, n, base, ks, ts, k, now, later);
    var s := After(cfg, steps);
    if s.pending == None && LoadsAlike(cfg, s, ks) {
      assert s.log + "" == s.log;
      LiveIsPrefixOfRecovered(cfg, steps, ks, ts);
    }
  }

  // ---------- a torn append ----------

  /** What n bytes of the line of a write, left behind a file of any text, are read as. */
  lemma CutReplays(f: string, r: Record, n: nat)
    requires Clean(r) && n <= |Line(r)|
    ensures Replay(f + Line(r)[..n]) == Replay(Complete(f)) + ParseOne(Unfinished(f) + Line(r)[..n])
  {
    var p := Line(r)[..n];
    Split(f);
    ParseLineOfClean(r);
    assert forall c :: c in p ==> c in Line(r);
    ReplaySplit(f, p);
    ReplayUnfinished(Unfinished(f) + p);
  }

  /** Behind a blank last line the cut line gives what it gives alone. */
  lemma CutRebuilds(cap: nat, loaded: seq<Record>, a: seq<Record>, t: string, p: string)
    requires Blank(t)
    ensures Rebuilt(cap, loaded, a + ParseOne(t + p)) ==
            Rebuilt(cap, loaded, if Writes(ParseLine(p)) then a + [ParseLine(p)] else a)
  {
    SkipBlank(t, p);
    assert ParseLine(t + p) == ParseLine(p);
    if t + p == "" {
      assert p == "" && a + [] == a;
    } else if !Writes(ParseLine(p)) {
      IdleRecord(cap, loaded, a, ParseLine(p));
    }
  }

  /** A blank last line gives a record that a restart passes over. */
  lemma BlankTail(cap: nat, loaded: seq<Record>, a: seq<Record>, t: string, more: seq<Record>)
    requires Blank(t) && |more| <= 1
    ensures Rebuilt(cap, loaded, a + ParseOne(t) + more) == Rebuilt(cap, loaded, a + more)
  {
    if more == [] {
      assert a + ParseOne(t) + more == a + ParseOne(t) && a + more == a;
      assert t + "" == t;
      CutRebuilds(cap, loaded, a, t, "");
      assert ParseLine("").op == "";
    } else {
      BlankDropped(cap, loaded, a, t, more[0]);
      assert more == [more[0]];
    }
  }

  /**
   A crash inside the append of a pending write r, n bytes into its line. On any log the bytes left continue
   the last line, and the restart builds what the log then gives. On a log that is not torn, and with r
   clean, the restart builds what the log gave before when n is below three, and otherwise that and one
   record x, which is the write itself, the same operation on another key, or the write with a shorter
   value, as the byte counts of CutActs say. The line with its line feed counts as the write.
   */
  lemma TornAppend(cfg: Config, steps: seq<Step>, r: Record, n: nat, base: int, ks: seq<string>, ts: seq<int>)
    requires Legal(cfg, CrashAndRestart(steps, n, base, ks, ts))
    ensures Legal(cfg, steps) && n <= |PendingBytes(After(cfg, steps))|
    ensures var s, t := After(cfg, steps), After(cfg, CrashAndRestart(steps, n, base, ks, ts));
      && Replay(t.log) == Replay(Complete(s.log)) + Replay(Unfinished(s.log) + PendingBytes(s)[..n])
      && Strip(t.order) == Rebuilt(cfg.cap, t.loaded, Replay(t.log))
    ensures var s, t := After(cfg, steps), After(cfg, CrashAndRestart(steps, n, base, ks, ts));
      s.pending == Some(r) && Clean(r) ==>
      Replay(t.log) == Replay(Complete(s.log)) + ParseOne(Unfinished(s.log) + FirstBytes(Line(r), n))
    ensures var s, t := After(cfg, steps), After(cfg, CrashAndRestart(steps, n, base, ks, ts));
      s.pending == Some(r) && Clean(r) && !Torn(cfg.found, steps) ==>
      if n <= |Line(r)| then
        var x := ParseLine(Line(r)[..n]);
        && CutActs(r, x, n) && x == Remnant(r, n)
        && Strip(t.order) == Rebuilt(cfg.cap, t.loaded, if n >= 3 then Replay(s.log) + [x] else Replay(s.log))
      else Strip(t.order) == Rebuilt(cfg.cap, t.loaded, Replay(s.log) + [r])
  {
    CrashKeepsLog(cfg, steps, n, base, ks, ts);
    CrashLosesOnlyThePending(cfg, steps, n, base, ks, ts);
    PendingWrites(cfg, steps);
    TornIff(cfg, steps);
    var s, t := After(cfg, steps), After(cfg, CrashAndRestart(steps, n, base, ks, ts));
    ReplaySplit(s.log, PendingBytes(s)[..n]);
    if s.pending == Some(r) && Clean(r) {
      CutLineReplays(s.log, r, n);
      if !Torn(cfg.found, steps) {
        CutLineRebuilds(cfg.cap, t.loaded, s.log, r, n);
      }
    }
  }

  lemma CutLineReplays(log: string, r: Record, n: nat)
    requires Clean(r) && n <= |Encode(r)|
    ensures Replay(log + Encode(r)[..n]) ==
            Replay(Complete(log)) + ParseOne(Unfinished(log) + FirstBytes(Line(r), n))
  {
    if n <= |Line(r)| {
      assert Encode(r)[..n] == Line(r)[..n];
      CutReplays(log, r, n);
    } else {
      assert Encode(r)[..n] == Encode(r);
      AppendReplays(log, r);
    }
  }

  lemma AppendReplays(log: string, r: Record)
    requires Clean(r)
    ensures Replay(log + Encode(r)) == Replay(Complete(log)) + ParseOne(Unfinished(log) + Line(r))
  {
    ParseLineOfClean(r);
    AppendJoins(log, r, "");
    ReplayStep("");
    assert log + Encode(r) + "" == log + Encode(r);
  }

  lemma CutLineRebuilds(cap: nat, loaded: seq<Record>, log: string, r: Record, n: nat)
    requires Safe(log, r) && Writes(r) && n <= |Encode(r)|
    ensures if n <= |Line(r)| then
        var x := ParseLine(Line(r)[..n]);
        && CutActs(r, x, n) && x == Remnant(r, n)
        && Rebuilt(cap, loaded, Replay(log + Encode(r)[..n])) ==
           Rebuilt(cap, loaded, if n >= 3 then Replay(log) + [x] else Replay(log))
      else Rebuilt(cap, loaded, Replay(log + Encode(r)[..n])) == Rebuilt(cap, loaded, Replay(log) + [r])
  {
    if n <= |Line(r)| {
      assert Encode(r)[..n] == Line(r)[..n];
      CutActsIff(r, n);
      ReadsRemnant(r, n);
      TornRebuilds(cap, loaded, log, r, n);
    } else {
      assert Encode(r)[..n] == Encode(r);
      SafeAppendRebuilds(cap, loaded, log, r);
    }
  }

  lemma TornRebuilds(cap: nat, loaded: seq<Record>, log: string, r: Record, n: nat)
    requires Safe(log, r) && Writes(r) && n <= |Line(r)|
    ensures Replay(log + Line(r)[..n]) == Replay(Complete(log)) + ParseOne(Unfinished(log) + Line(r)[..n])
    ensures Rebuilt(cap, loaded, Replay(log + Line(r)[..n])) ==
            Rebuilt(cap, loaded, if n >= 3 then Replay(log) + [ParseLine(Line(r)[..n])] else Replay(log))
  {
    var a, t, p := Replay(Complete(log)), Unfinished(log), Line(r)[..n];
    CutReplays(log, r, n);
    CutRebuilds(cap, loaded, a, t, p);
    CutActsIff(r, n);
    ReplayOfSplit(log);
    BlankTail(cap, loaded, a, t, if n >= 3 then [ParseLine(p)] else []);
    assert a + ParseOne(t) + [] == a + ParseOne(t) && a + [] == a;
  }

  // ---------- the write after a torn append ----------

  /** A crash, a restart and one more write, acknowledged. */
  function WriteAfterCrash(steps: seq<Step>, n: nat, base: int, ks: seq<string>, ts: seq<int>, write: Step): seq<Step> {
    CrashAndRestart(steps, n, base, ks, ts) + [write] + [AppendLog]
  }

  lemma WriteAfterCrashIs(
    cfg: Config, steps: seq<Step>, n: nat, base: int, ks: seq<string>, ts: seq<int>, write: Step, w: Record)
    requires write.Update? && Logs(write.cmd, write.key, write.value) == Some(w)
    requires Legal(cfg, WriteAfterCrash(steps, n, base, ks, ts, write))
    ensures Legal(cfg, CrashAndRestart(steps, n, base, ks, ts))
    ensures var t := After(cfg, CrashAndRestart(steps, n, base, ks, ts));
            var u := After(cfg, WriteAfterCrash(steps, n, base, ks, ts, write));
            u.log == t.log + Encode(w) && u.acked == t.acked + [Ack(w, |t.log|)]
  {
    var restarted := CrashAndRestart(steps, n, base, ks, ts);
    var all := WriteAfterCrash(steps, n, base, ks, ts, write);
    assert all[..|all|-1] == restarted + [write] && (restarted + [write])[..|restarted|] == restarted;
    assert all[|all|-1] == AppendLog && (restarted + [write])[|restarted|] == write;
  }

  lemma AppendedReadBack(log: string, w: Record)
    ensures ReadBack(log + Encode(w), w, |log|) <==> Safe(log, w)
  {
    ReadBackIff(log, w, "");
    assert log + Encode(w) + "" == log + Encode(w);
  }

  /** The write w stands first behind the log that the crash left, and is read back or not. */
  ghost predicate NextWriteReads(s: Store, u: Store, n: nat, w: Record, back: bool)
    requires n <= |PendingBytes(s)|
  {
    var left := LogLeft(s, n);
    && u.log == left + Encode(w) && u.acked == s.acked + [Ack(w, |left|)]
    && (ReadBack(u.log, w, |left|) <==> back)
  }

  lemma LeftUntornIff(cfg: Config, steps: seq<Step>, n: nat)
    requires Legal(cfg, steps) && After(cfg, steps).up && n <= |PendingBytes(After(cfg, steps))|
    ensures Blank(Unfinished(LogLeft(After(cfg, steps), n))) <==> !Torn(cfg.found, steps + [Crash(n)])
  {
    Extend(cfg, steps, Crash(n));
    TornIff(cfg, steps + [Crash(n)]);
  }

  /**
   The first write acknowledged after a crash, whatever was pending and whatever stood in the log, is read
   back as itself if and only if it is clean and the log was not torn after the crash. With nothing pending
   that is when it was not torn before. With a clean write pending it is when the crash fell before the
   first byte of its line, on a log not torn before, or after its line feed.
   */
  lemma NextWriteReadBackIff(
    cfg: Config, steps: seq<Step>, n: nat, base: int, ks: seq<string>, ts: seq<int>, write: Step, w: Record)
    requires write.Update? && Logs(write.cmd, write.key, write.value) == Some(w)
    requires Legal(cfg, WriteAfterCrash(steps, n, base, ks, ts, write))
    ensures Legal(cfg, steps) && n <= |PendingBytes(After(cfg, steps))|
    ensures NextWriteReads(After(cfg, steps), After(cfg, WriteAfterCrash(steps, n, base, ks, ts, write)), n, w,
                           Clean(w) && !Torn(cfg.found, steps + [Crash(n)]))
    ensures Pending(steps) == After(cfg, steps).pending
    ensures Pending(steps) == None ==> n == 0 && (Torn(cfg.found, steps + [Crash(n)]) <==> Torn(cfg.found, steps))
    ensures Pending(steps).Some? && Clean(Pending(steps).value) ==>
              (Torn(cfg.found, steps + [Crash(n)]) <==>
               if n == 0 then Torn(cfg.found, steps) else n < |Encode(Pending(steps).value)|)
  {
    WriteAfterCrashIs(cfg, steps, n, base, ks, ts, write, w);
    CrashKeepsLog(cfg, steps, n, base, ks, ts);
    CrashAndRestartIs(cfg, steps, n, base, ks, ts);
    LeftUntornIff(cfg, steps, n);
    AppendedReadBack(LogLeft(After(cfg, steps), n), w);
    TornAfterCrash(cfg, steps, n);
  }

  lemma TornAfterCrash(cfg: Config, steps: seq<Step>, n: nat)
    requires Legal(cfg, steps) && n <= |PendingBytes(After(cfg, steps))|
    ensures Pending(steps) == After(cfg, steps).pending
    ensures Pending(steps) == None ==> n == 0 && (Torn(cfg.found, steps + [Crash(n)]) <==> Torn(cfg.found, steps))
    ensures Pending(steps).Some? && Clean(Pending(steps).value) ==>
              (Torn(cfg.found, steps + [Crash(n)]) <==>
               if n == 0 then Torn(cfg.found, steps) else n < |Encode(Pending(steps).value)|)
  {
    TornIff(cfg, steps);
    PendingWrites(cfg, steps);
    if Pending(steps) == None {
      assert (steps + [Crash(n)])[..|steps|] == steps;
    } else if Clean(Pending(steps).value) {
      CrashInLineTears(cfg.found, steps, n);
    }
  }
}
