/**
 The store as a step machine: cache, log and clock through commands, cleanups, crashes and restarts,
 and what every run keeps.

 A crash may stop a log append after any of its bytes, and the clock may start over at any reading.
 */
module StoreRuns {
  import opened Recency
  import opened WalLog
  import opened LogTears
  import opened Recovery
  import opened Rebuilding
  import Snapshots

  /** The capacity, the bytes of the snapshot file and the bytes of the log found at first start. */
  datatype Config = Config(cap: nat, snapshotFile: string, found: string)

  /** An acknowledged write and the byte of the log its line was appended at. */
  datatype Ack = Ack(r: Record, at: nat)

  /**
   up is false between a crash and the next restart. A command whose cache update is done and whose log
   append is not is pending. loaded lists the snapshot pairs as the last restart visited them, acked the
   acknowledged writes; neither is read by any step.
   */
  datatype Store = Store(
    up: bool, loaded: seq<Record>, order: seq<Entry>, log: string, pending: Option<Record>, acked: seq<Ack>, clock: int)

  datatype Step =
    | Update(cmd: string, key: string, value: string, now: int)
    | AppendLog
    | Sweep(now: int)
    | Crash(n: nat)
    | Restart(base: int, ks: seq<string>, times: seq<int>)

  /** The record a command writes to the log: the key alone for a deletion. */
  function Logs(cmd: string, key: string, value: string): Option<Record> {
    if cmd == "SET" then Some(Record("SET", key, value))
    else if cmd == "DEL" then Some(Record("DEL", key, ""))
    else None
  }

  function Data(cfg: Config): map<string, string> {
    Snapshots.Load(cfg.snapshotFile)
  }

  function PendingRecords(s: Store): seq<Record> {
    if s.pending.Some? then [s.pending.value] else []
  }

  function LineOfPending(p: Option<Record>): string {
    if p.Some? then Encode(p.value) else ""
  }

  function PendingBytes(s: Store): string {
    LineOfPending(s.pending)
  }

  function Initial(cfg: Config): Store {
    Store(false, [], [], cfg.found, None, [], 0)
  }

  ghost predicate Enabled(cfg: Config, s: Store, step: Step) {
    match step
    case Update(cmd, key, value, now) => s.up && s.pending == None && s.clock <= now
    case AppendLog => s.up && s.pending.Some?
    case Sweep(now) => s.up && s.clock <= now
    case Crash(n) => s.up && n <= |PendingBytes(s)|
    case Restart(base, ks, ts) =>
      !s.up && Snapshots.Enumerates(ks, Data(cfg)) && |ts| == |ks| + |Replay(s.log)| && Ascending(ts, base)
  }

  /** A crash in the middle of an append leaves the first n bytes of the line in the log. */
  ghost function Next(cfg: Config, s: Store, step: Step): Store
    requires Enabled(cfg, s, step)
  {
    match step
    case Update(cmd, key, value, now) =>
      var r := Logs(cmd, key, value);
      if r == None then s.(clock := now)
      else s.(order := ApplyRecord(cfg.cap, s.order, r.value, now), pending := r, clock := now)
    case AppendLog =>
      s.(log := s.log + PendingBytes(s), acked := s.acked + [Ack(s.pending.value, |s.log|)], pending := None)
    case Sweep(now) => s.(order := Cleaned(s.order, now), clock := now)
    case Crash(n) => s.(up := false, order := [], log := s.log + PendingBytes(s)[..n], pending := None)
    case Restart(base, ks, ts) => Restarted(cfg.cap, s, Sets(ks, Data(cfg)), Replay(s.log), base, ts)
  }

  function Restarted(cap: nat, s: Store, loaded: seq<Record>, rs: seq<Record>, base: int, ts: seq<int>): Store
    requires |ts| == |loaded + rs|
  {
    s.(up := true, loaded := loaded, order := ReplayOver(cap, [], loaded + rs, ts),
       clock := if ts == [] then base else ts[|ts|-1])
  }

  ghost predicate Legal(cfg: Config, steps: seq<Step>)
    decreases |steps|, 0
  {
    steps == [] || (Legal(cfg, steps[..|steps|-1]) && Enabled(cfg, After(cfg, steps[..|steps|-1]), steps[|steps|-1]))
  }

  ghost function After(cfg: Config, steps: seq<Step>): Store
    requires Legal(cfg, steps)
    decreases |steps|, 1
  {
    if steps == [] then Initial(cfg) else Next(cfg, After(cfg, steps[..|steps|-1]), steps[|steps|-1])
  }

  lemma Extend(cfg: Config, steps: seq<Step>, step: Step)
    requires Legal(cfg, steps) && Enabled(cfg, After(cfg, steps), step)
    ensures Legal(cfg, steps + [step]) && After(cfg, steps + [step]) == Next(cfg, After(cfg, steps), step)
  {
    assert (steps + [step])[..|steps|] == steps;
  }

  // ---------- torn logs, told from the steps ----------

  /** The write that is pending after the steps. */
  function Pending(steps: seq<Step>): Option<Record> {
    if steps == [] then None
    else
      match steps[|steps|-1]
      case Update(cmd, key, value, _) => Logs(cmd, key, value)
      case AppendLog => None
      case Crash(_) => None
      case _ => Pending(steps[..|steps|-1])
  }

  function FirstBytes(line: string, n: nat): string {
    if n <= |line| then line[..n] else line
  }

  /** The last line of the log is unfinished and not blank: found so, or left so by a crash. An append ends it. */
  predicate Torn(found: string, steps: seq<Step>) {
    if steps == [] then !Blank(Unfinished(found))
    else
      var before := steps[..|steps|-1];
      match steps[|steps|-1]
      case AppendLog => false
      case Crash(n) => !BlankAfter(!Torn(found, before), FirstBytes(LineOfPending(Pending(before)), n))
      case _ => Torn(found, before)
  }

  lemma AppendEndsTear(log: string, r: Record)
    ensures Unfinished(log + Encode(r)) == ""
  {
    Split(log + Encode(r));
  }

  /** In every run the file is torn exactly when the steps say so. */
  lemma {:induction false} TornIff(cfg: Config, steps: seq<Step>)
    requires Legal(cfg, steps)
    ensures After(cfg, steps).pending == Pending(steps)
    ensures Blank(Unfinished(After(cfg, steps).log)) <==> !Torn(cfg.found, steps)
  {
    if steps != [] {
      var before, step := steps[..|steps|-1], steps[|steps|-1];
      var s := After(cfg, before);
      TornIff(cfg, before);
      match step
      case AppendLog => AppendEndsTear(s.log, s.pending.value);
      case Crash(n) => BlankAfterIff(s.log, PendingBytes(s)[..n]);
      case _ =>
    }
  }

  /** For a clean pending write the bytes left tell: some but not all of its line, or none and a log torn before. */
  lemma CrashInLineTears(found: string, steps: seq<Step>, n: nat)
    requires Pending(steps).Some? && Clean(Pending(steps).value) && Writes(Pending(steps).value)
    requires n <= |Encode(Pending(steps).value)|
    ensures Torn(found, steps + [Crash(n)]) <==>
            if n == 0 then Torn(found, steps) else n < |Encode(Pending(steps).value)|
  {
    assert (steps + [Crash(n)])[..|steps|] == steps;
    CrashTearsIff(!Torn(found, steps), Pending(steps).value, n);
  }

  // ---------- acknowledged writes in the log ----------

  /** An append that will be read back: of a clean record, to a file whose last line is complete or blank. */
  ghost predicate Safe(log: string, r: Record) {
    Clean(r) && Blank(Unfinished(log))
  }

  /** The same, told from the steps before the append. */
  predicate SafeNext(found: string, steps: seq<Step>) {
    Pending(steps).Some? && Clean(Pending(steps).value) && !Torn(found, steps)
  }

  /** Every append of the run was safe at its time. */
  predicate Careful(found: string, steps: seq<Step>) {
    steps == [] ||
    (var before := steps[..|steps|-1];
     Careful(found, before) && (steps[|steps|-1].AppendLog? ==> SafeNext(found, before)))
  }

  /** Every append since the last restart was safe at its time. */
  predicate CarefulSince(found: string, steps: seq<Step>) {
    steps == [] || steps[|steps|-1].Restart? ||
    (var before := steps[..|steps|-1];
     CarefulSince(found, before) && (steps[|steps|-1].AppendLog? ==> SafeNext(found, before)))
  }

  lemma {:induction false} CarefulIsCarefulSince(found: string, steps: seq<Step>)
    requires Careful(found, steps)
    ensures CarefulSince(found, steps)
  {
    if steps != [] {
      CarefulIsCarefulSince(found, steps[..|steps|-1]);
    }
  }

  /** Every write that a client sent is clean. */
  predicate CleanCommands(steps: seq<Step>) {
    forall i :: 0 <= i < |steps| && steps[i].Update? ==>
      match Logs(steps[i].cmd, steps[i].key, steps[i].value) case Some(r) => Clean(r) case None => true
  }

  lemma {:induction false} CleanPending(steps: seq<Step>)
    requires CleanCommands(steps)
    ensures Pending(steps).Some? ==> Clean(Pending(steps).value)
  {
    if steps != [] {
      CleanPending(steps[..|steps|-1]);
    }
  }

  /** How many steps the run has up to its last restart. */
  function LastRestart(steps: seq<Step>): (n: nat)
    ensures n <= |steps|
  {
    if steps == [] || steps[|steps|-1].Restart? then |steps| else LastRestart(steps[..|steps|-1])
  }

  /** Nothing was appended to a torn log from step `from` on. */
  predicate NoAppendTorn(found: string, steps: seq<Step>, from: nat) {
    forall i :: from <= i < |steps| && steps[i].AppendLog? ==> !Torn(found, steps[..i])
  }

  lemma NoAppendTornStep(found: string, steps: seq<Step>, from: nat)
    requires steps != [] && from < |steps|
    ensures var n := |steps| - 1;
            NoAppendTorn(found, steps, from) <==>
            NoAppendTorn(found, steps[..n], from) && (steps[n].AppendLog? ==> !Torn(found, steps[..n]))
  {
    var n := |steps| - 1;
    assert forall i :: 0 <= i < n ==> steps[..n][..i] == steps[..i] && steps[..n][i] == steps[i];
  }

  /**
   With clean commands a run is careful if and only if nothing was appended while the log was torn, and
   careful since the last restart if and only if nothing was since then.
   */
  lemma {:induction false} CleanRunsCarefulIff(cfg: Config, steps: seq<Step>)
    requires Legal(cfg, steps) && CleanCommands(steps)
    ensures Careful(cfg.found, steps) <==> NoAppendTorn(cfg.found, steps, 0)
    ensures CarefulSince(cfg.found, steps) <==> NoAppendTorn(cfg.found, steps, LastRestart(steps))
  {
    if steps != [] {
      var n := |steps| - 1;
      CleanRunsCarefulIff(cfg, steps[..n]);
      CleanPending(steps[..n]);
      TornIff(cfg, steps[..n]);
      NoAppendTornStep(cfg.found, steps, 0);
      if !steps[n].Restart? {
        NoAppendTornStep(cfg.found, steps, LastRestart(steps));
      }
    }
  }

  /** The bytes of the acknowledged line stand where they were appended. */
  ghost predicate Stands(log: string, a: Ack) {
    a.at + |Encode(a.r)| <= |log| && log[a.at..a.at+|Encode(a.r)|] == Encode(a.r)
  }

  ghost predicate WasSafe(log: string, a: Ack) {
    a.at <= |log| && Safe(log[..a.at], a.r)
  }

  ghost predicate AllSafe(log: string, acked: seq<Ack>) {
    forall i :: 0 <= i < |acked| ==> WasSafe(log, acked[i])
  }

  /** The lines of the acknowledged writes stand behind what was found, in order and apart. */
  ghost predicate LogInvariant(cfg: Config, log: string, acked: seq<Ack>) {
    && cfg.found <= log
    && (forall i :: 0 <= i < |acked| ==> Stands(log, acked[i]) && |cfg.found| <= acked[i].at)
    && (forall i, j :: 0 <= i < j < |acked| ==> acked[i].at + |Encode(acked[i].r)| <= acked[j].at)
  }

  lemma StandsLater(log: string, x: string, a: Ack)
    requires Stands(log, a)
    ensures Stands(log + x, a) && (WasSafe(log + x, a) <==> WasSafe(log, a))
  {
    assert (log + x)[..a.at] == log[..a.at];
    assert (log + x)[a.at..a.at+|Encode(a.r)|] == log[a.at..a.at+|Encode(a.r)|];
  }

  lemma LogGrows(cfg: Config, log: string, acked: seq<Ack>, x: string)
    requires LogInvariant(cfg, log, acked)
    ensures LogInvariant(cfg, log + x, acked) && (AllSafe(log + x, acked) <==> AllSafe(log, acked))
  {
    forall i | 0 <= i < |acked|
      ensures Stands(log + x, acked[i]) && (WasSafe(log + x, acked[i]) <==> WasSafe(log, acked[i])) {
      StandsLater(log, x, acked[i]);
    }
  }

  lemma AllSafeSnoc(log: string, acked: seq<Ack>, a: Ack)
    ensures AllSafe(log, acked + [a]) <==> AllSafe(log, acked) && WasSafe(log, a)
  {
    var acked' := acked + [a];
    assert acked'[|acked|] == a;
    assert forall i :: 0 <= i < |acked| ==> acked'[i] == acked[i];
  }

  lemma LogInvariantSnoc(cfg: Config, log: string, acked: seq<Ack>, a: Ack)
    requires LogInvariant(cfg, log, acked) && Stands(log, a) && |cfg.found| <= a.at
    requires forall i :: 0 <= i < |acked| ==> acked[i].at + |Encode(acked[i].r)| <= a.at
    ensures LogInvariant(cfg, log, acked + [a])
  {
    var acked' := acked + [a];
    assert forall i :: 0 <= i < |acked'| ==> acked'[i] == if i < |acked| then acked[i] else a;
  }

  lemma AppendedStands(log: string, r: Record)
    ensures Stands(log + Encode(r), Ack(r, |log|)) && (WasSafe(log + Encode(r), Ack(r, |log|)) <==> Safe(log, r))
  {
    assert (log + Encode(r))[..|log|] == log;
  }

  lemma LogAppends(cfg: Config, log: string, acked: seq<Ack>, r: Record)
    requires LogInvariant(cfg, log, acked)
    ensures var log', acked' := log + Encode(r), acked + [Ack(r, |log|)];
            LogInvariant(cfg, log', acked') && (AllSafe(log', acked') <==> AllSafe(log, acked) && Safe(log, r))
  {
    var log' := log + Encode(r);
    LogGrows(cfg, log, acked, Encode(r));
    AppendedStands(log, r);
    assert forall i :: 0 <= i < |acked| ==> Stands(log, acked[i]);
    LogInvariantSnoc(cfg, log', acked, Ack(r, |log|));
    AllSafeSnoc(log', acked, Ack(r, |log|));
  }

  /** In every run the acknowledged lines stand in the log, and all of them were safe exactly in the careful runs. */
  lemma {:induction false} RunsKeepLog(cfg: Config, steps: seq<Step>)
    requires Legal(cfg, steps)
    ensures LogInvariant(cfg, After(cfg, steps).log, After(cfg, steps).acked)
    ensures AllSafe(After(cfg, steps).log, After(cfg, steps).acked) <==> Careful(cfg.found, steps)
  {
    if steps != [] {
      var before, step := steps[..|steps|-1], steps[|steps|-1];
      var s := After(cfg, before);
      RunsKeepLog(cfg, before);
      TornIff(cfg, before);
      match step
      case AppendLog => LogAppends(cfg, s.log, s.acked, s.pending.value);
      case Crash(n) => LogGrows(cfg, s.log, s.acked, PendingBytes(s)[..n]);
      case _ =>
    }
  }

  ghost predicate Kept(log: string, acked: seq<Ack>) {
    forall i :: 0 <= i < |acked| ==> ReadBack(log, acked[i].r, acked[i].at)
  }

  lemma ReadBackIffWasSafe(log: string, a: Ack)
    requires Stands(log, a)
    ensures ReadBack(log, a.r, a.at) <==> WasSafe(log, a)
  {
    var end := a.at + |Encode(a.r)|;
    assert log == log[..a.at] + Encode(a.r) + log[end..];
    ReadBackIff(log[..a.at], a.r, log[end..]);
  }

  /**
   Every acknowledged write of a run is read back from the log as itself if and only if every append of
   the run was of a clean record to a file that was complete up to blanks.
   */
  lemma AcksReadBackIff(cfg: Config, steps: seq<Step>)
    requires Legal(cfg, steps)
    ensures Kept(After(cfg, steps).log, After(cfg, steps).acked) <==> Careful(cfg.found, steps)
  {
    var s := After(cfg, steps);
    RunsKeepLog(cfg, steps);
    forall i | 0 <= i < |s.acked|
      ensures ReadBack(s.log, s.acked[i].r, s.acked[i].at) <==> WasSafe(s.log, s.acked[i]) {
      ReadBackIffWasSafe(s.log, s.acked[i]);
    }
  }

  /** No crash of the run left bytes of a line. */
  ghost predicate Quiet(steps: seq<Step>) {
    forall i :: 0 <= i < |steps| && steps[i].Crash? ==> steps[i].n == 0
  }

  function Records(acked: seq<Ack>): (rs: seq<Record>)
    ensures |rs| == |acked| && forall i :: 0 <= i < |rs| ==> rs[i] == acked[i].r
  {
    seq(|acked|, i requires 0 <= i < |acked| => acked[i].r)
  }

  lemma {:induction false} QuietLog(cfg: Config, steps: seq<Step>)
    requires Legal(cfg, steps) && Quiet(steps)
    ensures After(cfg, steps).log == cfg.found + EncodeAll(Records(After(cfg, steps).acked))
  {
    if steps != [] {
      var before, step := steps[..|steps|-1], steps[|steps|-1];
      var s := After(cfg, before);
      QuietLog(cfg, before);
      if step.AppendLog? {
        QuietAppend(cfg.found, s.acked, s.pending.value, |s.log|);
      }
    }
  }

  lemma QuietAppend(found: string, acked: seq<Ack>, r: Record, at: nat)
    ensures found + EncodeAll(Records(acked)) + Encode(r) == found + EncodeAll(Records(acked + [Ack(r, at)]))
  {
    EncodeAllConcat(Records(acked), [r]);
    assert Records(acked + [Ack(r, at)]) == Records(acked) + [r];
    assert EncodeAll([r]) == Encode(r) + "" == Encode(r);
  }

  /**
   When no crash falls inside an append, replay gives what the log found at first start gave and then
   the acknowledged writes, if and only if they are clean and that log was empty or ended in a line feed,
   or there are none.
   */
  lemma QuietRunsReplayIff(cfg: Config, steps: seq<Step>)
    requires Legal(cfg, steps) && Quiet(steps)
    ensures var s := After(cfg, steps);
            Replay(s.log) == Replay(cfg.found) + Records(s.acked) <==>
            AllClean(Records(s.acked)) && (s.acked == [] || Closed(cfg.found))
  {
    QuietLog(cfg, steps);
    AppendedReadBackIff(cfg.found, Records(After(cfg, steps).acked));
  }

  // ---------- the list ----------

  /** The pairs were loaded in some order of the snapshot. */
  ghost predicate LoadedFrom(cfg: Config, loaded: seq<Record>) {
    exists ks :: Snapshots.Enumerates(ks, Data(cfg)) && loaded == Sets(ks, Data(cfg))
  }

  ghost predicate ListInvariant(cfg: Config, s: Store) {
    && Distinct(s.order) && |s.order| <= cfg.cap && Aging(s.order, s.clock)
    && (s.pending.Some? ==> Writes(s.pending.value))
    && (if s.up then LoadedFrom(cfg, s.loaded) else s.order == [] && s.pending == None)
  }

  /** The live list is a prefix of what the log and the pending write give. */
  ghost predicate Following(cap: nat, s: Store) {
    s.up ==> Strip(s.order) <= Rebuilt(cap, s.loaded, Replay(s.log) + PendingRecords(s))
  }

  lemma UpdateKeeps(cfg: Config, s: Store, r: Record, now: int)
    requires ListInvariant(cfg, s) && s.up && s.pending == None && s.clock <= now && Writes(r)
    ensures var t := s.(order := ApplyRecord(cfg.cap, s.order, r, now), pending := Some(r), clock := now);
            ListInvariant(cfg, t) && (Following(cfg.cap, s) ==> Following(cfg.cap, t))
  {
    ApplyDistinct(cfg.cap, s.order, r, now);
    AgingApply(cfg.cap, s.order, r, s.clock, now);
    if Following(cfg.cap, s) {
      assert Replay(s.log) + [] == Replay(s.log);
      RebuiltStep(cfg.cap, s.order, s.loaded, Replay(s.log), r, now);
    }
  }

  lemma SweepKeeps(cfg: Config, s: Store, now: int)
    requires ListInvariant(cfg, s) && s.up && s.clock <= now
    ensures var t := s.(order := Cleaned(s.order, now), clock := now);
            ListInvariant(cfg, t) && (Following(cfg.cap, s) ==> Following(cfg.cap, t))
  {
    CleanedIsPrefix(s.order, now);
    KeepDistinct(s.order, Unexpired(now));
    AgingKeep(s.order, Unexpired(now), s.clock);
    assert Strip(Cleaned(s.order, now)) <= Strip(s.order);
  }

  lemma RestartKeeps(cfg: Config, s: Store, loaded: seq<Record>, rs: seq<Record>, base: int, ts: seq<int>)
    requires ListInvariant(cfg, s) && !s.up && LoadedFrom(cfg, loaded)
    requires |ts| == |loaded + rs| && Ascending(ts, base) && rs == Replay(s.log)
    ensures ListInvariant(cfg, Restarted(cfg.cap, s, loaded, rs, base, ts))
    ensures Following(cfg.cap, Restarted(cfg.cap, s, loaded, rs, base, ts))
  {
    ReplayDistinct(cfg.cap, [], loaded + rs, ts);
    ReplayAges(cfg.cap, loaded + rs, ts, base);
    RestartIsRebuilt(cfg.cap, loaded, rs, ts);
    assert rs + [] == rs;
  }

  /** A safe append moves the pending write into the replay of the log and leaves what is rebuilt. */
  lemma SafeAppendRebuilds(cap: nat, loaded: seq<Record>, log: string, r: Record)
    requires Safe(log, r)
    ensures Rebuilt(cap, loaded, Replay(log + Encode(r))) == Rebuilt(cap, loaded, Replay(log) + [r])
  {
    var a, t := Replay(Complete(log)), Unfinished(log);
    SafeAppendReplays(log, r);
    ReplayOfSplit(log);
    BlankDropped(cap, loaded, a, t, r);
  }

  lemma SafeAppendReplays(log: string, r: Record)
    requires Safe(log, r)
    ensures Replay(log + Encode(r)) == Replay(Complete(log)) + [r]
  {
    AppendJoins(log, r, "");
    ReplayStep("");
    assert log + Encode(r) + "" == log + Encode(r);
    JoinedReadsIff(Unfinished(log), r);
  }

  lemma BlankDropped(cap: nat, loaded: seq<Record>, rs: seq<Record>, t: string, r: Record)
    requires Blank(t)
    ensures Rebuilt(cap, loaded, rs + ParseOne(t) + [r]) == Rebuilt(cap, loaded, rs + [r])
  {
    if t == "" {
      assert rs + [] == rs;
    } else {
      BlankReadsIdle(t);
      IdleBefore(cap, loaded, rs, ParseLine(t), r);
    }
  }

  lemma BlankReadsIdle(t: string)
    requires Blank(t)
    ensures !Writes(ParseLine(t))
  {
    SkipBlank(t, "");
    assert t + "" == t;
  }

  lemma AppendKeeps(cfg: Config, s: Store, r: Record, a: Ack)
    requires ListInvariant(cfg, s) && s.up && s.pending == Some(r)
    ensures var t := s.(log := s.log + Encode(r), acked := s.acked + [a], pending := None);
            ListInvariant(cfg, t) && (Following(cfg.cap, s) && Safe(s.log, r) ==> Following(cfg.cap, t))
  {
    if Following(cfg.cap, s) && Safe(s.log, r) {
      SafeAppendRebuilds(cfg.cap, s.loaded, s.log, r);
      assert Replay(s.log + Encode(r)) + [] == Replay(s.log + Encode(r));
    }
  }

  lemma StepKeeps(cfg: Config, s: Store, step: Step)
    requires Enabled(cfg, s, step) && ListInvariant(cfg, s)
    ensures ListInvariant(cfg, Next(cfg, s, step))
    ensures step.Restart? || (Following(cfg.cap, s) && (step.AppendLog? ==> Safe(s.log, s.pending.value))) ==>
              Following(cfg.cap, Next(cfg, s, step))
  {
    match step
    case Update(cmd, key, value, now) =>
      if Logs(cmd, key, value).Some? {
        UpdateKeeps(cfg, s, Logs(cmd, key, value).value, now);
      }
    case AppendLog => AppendKeeps(cfg, s, s.pending.value, Ack(s.pending.value, |s.log|));
    case Sweep(now) => SweepKeeps(cfg, s, now);
    case Crash(n) =>
    case Restart(base, ks, ts) =>
      RestartKeeps(cfg, s, Sets(ks, Data(cfg)), Replay(s.log), base, ts);
  }

  /**
   Every run keeps the list within capacity, without repetitions and with the latest expiries in front;
   as long as the appends since the last restart were safe, the list is also a prefix, key for key and
   value for value, of what the log and the pending write give, whatever happened before that restart.
   */
  lemma {:induction false} RunsKeepInvariant(cfg: Config, steps: seq<Step>)
    requires Legal(cfg, steps)
    ensures ListInvariant(cfg, After(cfg, steps))
    ensures CarefulSince(cfg.found, steps) ==> Following(cfg.cap, After(cfg, steps))
  {
    if steps != [] {
      RunsKeepInvariant(cfg, steps[..|steps|-1]);
      TornIff(cfg, steps[..|steps|-1]);
      StepKeeps(cfg, After(cfg, steps[..|steps|-1]), steps[|steps|-1]);
    }
  }
}
